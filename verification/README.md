# DirectCyberInstall: a verified model of the slot resolver

This project models `DirectCyberInstall_PlayerPart`, a Caves of Qud mod part.
The part adds three inventory actions to a cybernetic:
- automatic install;
- manual install;
- uninstall.

Each action works directly from the inventory. The model covers four things:
- the actions the part offers for an item;
- how it dispatches the three command strings;
- the guards of the three operations;
- the slot resolver.

The slot resolver works as follows:
- It splits the item's `Slots` string on commas and trims each token.
- The automatic install runs two passes over the tokens. Pass 1 looks only at tokens that start with `ImplantSlot`; pass 2 looks at the others and runs only when pass 1 found nothing. In each pass the pick is the first empty part, in enumeration order, whose type equals the earliest token of that pass's kind that fits some part.
- The manual install lists every empty part that fits some token, with one entry per matching (token, part) pair. The parts that fit dedicated tokens come first, then those that fit regular tokens. The install then honours the menu index only when it is in range.

The project has four modules:
- `NetStrings` (`net_strings.dfy`) holds the .NET string operations as the mod uses them: `String.Split(char)` keeps empty pieces, `String.Trim()` strips `Char.IsWhiteSpace` characters at both ends, and `StartsWith` is an ordinal prefix test.
- `SlotResolver` (`slot_resolver.dfy`) holds the pure specification: the tokens, the pick of one pass (`FirstMatch`), the automatic pick (`AutoPick`), the buckets and the candidate list (`Candidates`), and the lemmas about them.
- `CyberInstall` (`cyber_install.dfy`) holds the operations as imperative methods over the body, which is an `array<BodySlot>` in `GetParts()` order. Each method is proved against a specification function of the old body: `AutomaticInstall`, `ManualInstall`, `Removal` and `HandleAction`. The module also holds the offered actions and the lemmas about the operations.
- `Wrappers` and `SeqFacts` are small support modules: an `Option` for C# null references, and element-type-generic sequence facts.

A body part is named by its index in the body array. `BodyPart.Implant` is modelled as "this part now holds the item; nothing else changes", and `GameObject.Unimplant` as "the part the item is implanted on now holds nothing; nothing else changes". The menu's answer (`Popup.PickOption`) is an input to the manual install; it is negative when the player cancels. Popups and player messages become the `Outcome` of an operation.

## Model

| member | source | states |
|---|---|---|
| NetStrings.JoinSplit | Scripts/DirectCyberInstall/DirectCyberInstall.cs:138 | Joining the pieces of `Split(',')` with commas gives the original string back, so splitting keeps every character and every empty piece. |
| NetStrings.SplitJoin | Scripts/DirectCyberInstall/DirectCyberInstall.cs:206 | Splitting a comma-join of comma-free pieces gives exactly those pieces, empty ones included. |
| NetStrings.TrimIsCore | Scripts/DirectCyberInstall/DirectCyberInstall.cs:143 | `Trim` returns the slice of the string that neither starts nor ends with white space, and everything outside that slice is white space. |
| NetStrings.TrimIdempotent | Scripts/DirectCyberInstall/DirectCyberInstall.cs:209 | Trimming a trimmed token changes nothing. |
| NetStrings.TrimKeepsAbsent | Scripts/DirectCyberInstall/DirectCyberInstall.cs:143 | Trimming introduces no character, so a trimmed token of a split piece holds no comma. |
| SlotResolver.TokensOfSlots | Scripts/DirectCyberInstall/DirectCyberInstall.cs:136-143 | A non-empty Slots string has exactly as many tokens as split pieces; each token is comma-free and its own trim. |
| SlotResolver.TokensOfJoin | Scripts/DirectCyberInstall/DirectCyberInstall.cs:136-143 | A Slots string written as trimmed, comma-free types joined by commas yields exactly those types as tokens, in order. |
| SlotResolver.MissingSlotsSelectNothing | Scripts/DirectCyberInstall/DirectCyberInstall.cs:136 | A null or empty Slots string gives no automatic pick and an empty candidate list. |
| SlotResolver.MatchingPartsSound | Scripts/DirectCyberInstall/DirectCyberInstall.cs:210-219 | The parts collected for one token all fit it (same type, empty) and are listed in enumeration order without repeats. |
| SlotResolver.MatchingPartsComplete | Scripts/DirectCyberInstall/DirectCyberInstall.cs:210-219 | Every empty part whose type equals the token is collected for it. |
| SlotResolver.FirstEmptyPartIsFirst | Scripts/DirectCyberInstall/DirectCyberInstall.cs:145-152 | The inner scan finds nothing exactly when no part fits the token; otherwise it finds a fitting part with no fitting part before it. |
| SlotResolver.AutoPick | Scripts/DirectCyberInstall/DirectCyberInstall.cs:133-174 | A picked part is in the body, empty, and its type is one of the tokens. |
| SlotResolver.FirstMatchSound | Scripts/DirectCyberInstall/DirectCyberInstall.cs:141-154 | A pass picks only an empty part whose type is a token of that pass's kind. |
| SlotResolver.FirstMatchNoneIff | Scripts/DirectCyberInstall/DirectCyberInstall.cs:141-154 | A pass finds nothing exactly when no token of its kind fits any part. |
| SlotResolver.FirstMatchPrefixStable | Scripts/DirectCyberInstall/DirectCyberInstall.cs:153 | Once the tokens seen so far yield a pick, later tokens do not change it (the outer `break`). |
| SlotResolver.FirstMatchIff | Scripts/DirectCyberInstall/DirectCyberInstall.cs:141-154 | In both directions, a pass picks part k exactly when k is the first fitting part of the earliest token of the pass's kind that fits any part. |
| SlotResolver.AutoPickIff | Scripts/DirectCyberInstall/DirectCyberInstall.cs:140-173 | In both directions, the automatic pick is k exactly when k is pass 1's first-match choice, or pass 1 has no match and k is pass 2's first-match choice. |
| SlotResolver.AutoPickNoneIff | Scripts/DirectCyberInstall/DirectCyberInstall.cs:145-152 | Nothing is picked exactly when no (token, empty part) pair matches. |
| SlotResolver.DedicatedPrecedence | Scripts/DirectCyberInstall/DirectCyberInstall.cs:140-173 | In both directions, when some dedicated token fits an empty part, the pick is a part of dedicated type and never a regular slot. |
| SlotResolver.Candidates | Scripts/DirectCyberInstall/DirectCyberInstall.cs:200-223 | Every candidate is a part of the body that is empty and whose type is one of the tokens. |
| SlotResolver.BucketSound | Scripts/DirectCyberInstall/DirectCyberInstall.cs:212-217 | A bucket holds only empty parts whose type is a token of the bucket's kind. |
| SlotResolver.BucketAppend | Scripts/DirectCyberInstall/DirectCyberInstall.cs:207-220 | The bucket of concatenated token lists is the concatenation of their buckets: buckets are built token by token. |
| SlotResolver.BucketSplits | Scripts/DirectCyberInstall/DirectCyberInstall.cs:207-220 | Cutting the tokens at any point cuts the bucket at the same point (token-major order). |
| SlotResolver.BucketOfOneToken | Scripts/DirectCyberInstall/DirectCyberInstall.cs:210-219 | One token contributes its fitting parts in enumeration order to the bucket of its kind, and nothing to the other. |
| SlotResolver.MatchingPartsCount | Scripts/DirectCyberInstall/DirectCyberInstall.cs:210-219 | For one token, each fitting part is collected exactly once and any other part never. |
| SlotResolver.BucketCount | Scripts/DirectCyberInstall/DirectCyberInstall.cs:207-220 | In a bucket, an empty part of the bucket's kind appears once per token naming its type. |
| SlotResolver.CandidatesCount | Scripts/DirectCyberInstall/DirectCyberInstall.cs:207-223 | Duplicates are kept: an empty part appears in the candidate list once per token naming its type, and an occupied part never appears. |
| SlotResolver.CandidatesDedicatedFirst | Scripts/DirectCyberInstall/DirectCyberInstall.cs:222-223 | Every entry of dedicated type comes before every entry of regular type. |
| SlotResolver.BucketHead | Scripts/DirectCyberInstall/DirectCyberInstall.cs:207-220 | A bucket is empty exactly when the pass of the same kind finds nothing; otherwise its head is that pass's pick. |
| SlotResolver.CandidatesHeadIsAutoPick | Scripts/DirectCyberInstall/DirectCyberInstall.cs:133-174 | The candidate list is empty exactly when the automatic pick is nothing; otherwise its head is the automatic pick. |
| CyberInstall.Occupy | Scripts/DirectCyberInstall/DirectCyberInstall.cs:178 | After the implant, the chosen part holds the item, keeps its type and name, and every other part is unchanged. |
| CyberInstall.Vacate | Scripts/DirectCyberInstall/DirectCyberInstall.cs:261 | After the unimplant, the part the item was on holds nothing and keeps its type and name, and every other part is unchanged. |
| CyberInstall.ScanForEmptyPart | Scripts/DirectCyberInstall/DirectCyberInstall.cs:145-152 | The loop with its `break` returns the first fitting part, as the specification function `FirstEmptyPart` says. |
| CyberInstall.SearchPass | Scripts/DirectCyberInstall/DirectCyberInstall.cs:141-154 | The nested loops of one pass, with their `continue` and `break`s, return the pass's pick `FirstMatch` on the trimmed tokens. |
| CyberInstall.FindAutomaticSlot | Scripts/DirectCyberInstall/DirectCyberInstall.cs:133-174 | The two passes, the second run only when the first found nothing, return `AutoPick`; the pick is an empty part of the body. |
| CyberInstall.CollectForToken | Scripts/DirectCyberInstall/DirectCyberInstall.cs:210-219 | The inner loop appends the token's fitting parts, in enumeration order, to the list of the token's kind and leaves the other list unchanged. |
| CyberInstall.CollectCompatibleSlots | Scripts/DirectCyberInstall/DirectCyberInstall.cs:200-223 | The loops over tokens and parts build `Candidates`: the dedicated bucket followed by the regular bucket. |
| CyberInstall.BuildMenuOptions | Scripts/DirectCyberInstall/DirectCyberInstall.cs:231-236 | The menu has one line per candidate, in candidate order, each "ordinal name (type)", so that a menu index names a candidate. |
| CyberInstall.Implant | Scripts/DirectCyberInstall/DirectCyberInstall.cs:178 | The empty chosen part now holds the item, and nothing else in the body changes. |
| CyberInstall.Unimplant | Scripts/DirectCyberInstall/DirectCyberInstall.cs:261 | The part the item is implanted on is freed, and nothing else in the body changes. |
| CyberInstall.Uninstall | Scripts/DirectCyberInstall/DirectCyberInstall.cs:252-266 | The outcome and new body are `Removal` of the old body: "Not installed." with the body unchanged for an unimplanted item, otherwise the item's part is freed. |
| CyberInstall.InstallAutomatic | Scripts/DirectCyberInstall/DirectCyberInstall.cs:123-188 | The outcome and new body are `AutomaticInstall` of the old body: refuse an implanted item; otherwise implant in the automatic pick, or report "no empty compatible slot" and change nothing. |
| CyberInstall.InstallManual | Scripts/DirectCyberInstall/DirectCyberInstall.cs:190-250 | The outcome and new body are `ManualInstall` of the old body. The menu is shown only when there are candidates, and it lists them in candidate order. |
| CyberInstall.HandleInventoryAction | Scripts/DirectCyberInstall/DirectCyberInstall.cs:91-121 | Dispatch matches `HandleAction`: the three commands run their operation and request an interface exit; anything else, or a missing item, cybernetic part or parent, does neither. |
| CyberInstall.OfferActions | Scripts/DirectCyberInstall/DirectCyberInstall.cs:48-89 | No actions without an item or a cybernetic part. Otherwise the (command, key) pairs are exactly {InstallCyberneticAuto/a, InstallCyberneticManual/m} for an unimplanted item and {UninstallCybernetic/u} for an implanted one, all fired on the actor with default -1. |
| CyberInstall.InstallChangesOnlyChosenSlot | Scripts/DirectCyberInstall/DirectCyberInstall.cs:176-187 | Either install changes at most one part. That part is the one reported; it was empty, its type is a token, and it now holds the item. Any other outcome leaves the body unchanged. |
| CyberInstall.InstallRefusesImplanted | Scripts/DirectCyberInstall/DirectCyberInstall.cs:125-129 | Both installs on an implanted item report "Already installed." and leave the body unchanged. |
| CyberInstall.AutomaticInstallFindsSlotIff | Scripts/DirectCyberInstall/DirectCyberInstall.cs:176-187 | The automatic install reports "no empty compatible slot" exactly when the item is not implanted and no token fits any empty part. |
| CyberInstall.ManualInstallChoiceBounds | Scripts/DirectCyberInstall/DirectCyberInstall.cs:241-249 | In both directions, the manual install changes the body exactly when the item is not implanted and 0 <= choice < the number of candidates; cancelling changes nothing. |
| CyberInstall.ManualFirstChoiceIsAutomatic | Scripts/DirectCyberInstall/DirectCyberInstall.cs:222-249 | Choosing the first menu line does exactly what the automatic install does. |
| CyberInstall.ManualInstallNoSlotIff | Scripts/DirectCyberInstall/DirectCyberInstall.cs:225-229 | The manual install reports "no empty compatible slots" exactly when the automatic install reports "no empty compatible slot". |
| CyberInstall.UnrecognisedCommandIgnored | Scripts/DirectCyberInstall/DirectCyberInstall.cs:93-120 | Any other command, or a missing item, cybernetic part or parent, runs nothing, requests no interface exit and changes nothing. |
| CyberInstall.UninstallGuard | Scripts/DirectCyberInstall/DirectCyberInstall.cs:113-118 | The uninstall command requests an interface exit and reports "Not installed." exactly for an unimplanted item, leaving the body unchanged then; for an implanted item it reports the uninstall, frees the item's part and changes no other part. |
| CyberInstall.UninstallUndoesInstall | Scripts/DirectCyberInstall/DirectCyberInstall.cs:252-266 | Uninstalling right after either install, with the item now implanted on the part the install reported, gives back the body as it was before the install. |
| CyberInstall.OfferedIffAccepted | Scripts/DirectCyberInstall/DirectCyberInstall.cs:55-86 | A command is offered for an item exactly when dispatching it runs an operation that does not refuse the item. |
| CyberInstall.HeartChestTokens | Scripts/DirectCyberInstall/DirectCyberInstall.cs:136-143 | The Slots string "ImplantSlotHeart,Chest" gives exactly the tokens "ImplantSlotHeart" and "Chest", in that order. |
| CyberInstall.HeartTakenGoesToChest | Scripts/DirectCyberInstall/DirectCyberInstall.cs:156-173 | For any unimplanted item whose tokens are "ImplantSlotHeart" then "Chest", with the heart slot occupied and the chest free, the automatic install implants in the chest. |
| CyberInstall.OccupiedDedicatedSlotFallsBackToRegular | Scripts/DirectCyberInstall/DirectCyberInstall.cs:156-173 | With Slots "ImplantSlotHeart,Chest", an occupied heart slot and a free chest, the automatic install implants in the chest. The passes are sequential, not one merged ranking. |

## Left out

- The registration hooks `DirectCyberInstall_NewGame` and `DirectCyberInstall_LoadGame` (lines 12-35) and `WantEvent` (lines 41-46) are host lifecycle plumbing with no decision logic.
- Popups, player messages, their `{{..}}` markup and the `IsPlayer()` gating of messages are not modelled. An operation's `Outcome` records which popup or message it leads to.
- The display text of each offered action is not modelled; its name, command, key, fire-on-actor flag and default are.
- The return value of `base.HandleEvent` is host code and is not modelled; the dispatch model records only what ran and whether an interface exit was requested.
- `Popup.PickOption` is an input (`choice`), not an interaction.
- `GetOrdinalName()` is a field of each part, not a computation.
- `Body.GetParts()` is the body array in its given order.
- `BodyPart.Implant` is modelled only as "the part now holds the item"; anything else the host does on implant is not.
- CyberInstall.Uninstall: `GameObject.Unimplant(MoveToInventory: false)` is host code. The model frees the part the item is implanted on (`Vacate`) and changes no other part. It does not track the item itself: its `ImplantedOn` becoming null and where the item ends up are not modelled. An `ImplantedOn` index outside the body leaves the body unchanged.
- The install-then-uninstall round trip (`UninstallUndoesInstall`) holds for the abstractions of `Implant` and `Unimplant` above, not for anything else the host does on either call.
- `StartsWith("ImplantSlot")` is taken as an ordinal prefix test; the culture-sensitive comparison of the one-argument .NET overload is not modelled.
- Null references (the item, its cybernetic part, `Slots`, the parent object, a part's occupant, `ImplantedOn`) are `Option` values; which object a non-null reference points to is reduced to the fields the mod reads.
