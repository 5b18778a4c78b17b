/**
 * DirectCyberInstall_PlayerPart: the inventory actions it offers for a
 * cybernetic, the dispatch of the three commands, and the three operations.
 *
 * The host's body is an array of parts, updated in place by the host's
 * BodyPart.Implant. A cybernetic is a value: its identity, its Slots string
 * (null when absent) and the part it is implanted on (null when none). The
 * menu of the manual install is an input: the index Popup.PickOption returns
 * (negative when the player cancels). Popups and player messages become the
 * Outcome of an operation.
 */
module CyberInstall {
  import opened Wrappers
  import opened NetStrings
  import opened SlotResolver
  import opened SeqFacts

  /** The CyberneticsBaseItem part of an item. */
  datatype Cybernetic = Cybernetic(id: ItemId, slots: Option<string>, implantedOn: Option<nat>)

  /** An inventory item, with its CyberneticsBaseItem part when it has one. */
  datatype GameObject = GameObject(cybernetics: Option<Cybernetic>)

  /** What an operation shows the player. */
  datatype Outcome =
    | AlreadyInstalled      // popup "Already installed."
    | NoEmptySlot           // popup "No empty compatible slot available." (automatic install)
    | NoEmptySlots          // popup "No empty compatible slots available." (manual install)
    | Installed(slot: nat)  // the item was implanted in this part; "Installed ... to ..."
    | Dismissed             // manual menu cancelled or out of range: nothing shown
    | NotInstalled          // popup "Not installed."
    | Uninstalled           // the host's Unimplant was called; "Uninstalled ..."

  /** An operation's outcome and the body's parts after it. */
  datatype Effect = Effect(outcome: Outcome, parts: seq<BodySlot>)

  // ---------------------------------------------------------------------
  // Specification of the three operations

  /** BodyPart.Implant as far as the mod relies on it: the part holds the item,
      nothing else changes. */
  function Occupy(parts: seq<BodySlot>, k: nat, id: ItemId): (after: seq<BodySlot>)
    requires k < |parts|
    ensures |after| == |parts| && after[k].cybernetics == Some(id)
    ensures after[k].slotType == parts[k].slotType && after[k].ordinalName == parts[k].ordinalName
    ensures forall i :: 0 <= i < |parts| && i != k ==> after[i] == parts[i]
  {
    parts[k := parts[k].(cybernetics := Some(id))]
  }

  /** InstallAutomatic. */
  function AutomaticInstall(item: Cybernetic, parts: seq<BodySlot>): Effect {
    if item.implantedOn.Some? then Effect(AlreadyInstalled, parts)
    else match AutoPick(Tokens(item.slots), parts)
      case None => Effect(NoEmptySlot, parts)
      case Some(k) => Effect(Installed(k), Occupy(parts, k, item.id))
  }

  /** InstallManual, given the index the menu returns. */
  function ManualInstall(item: Cybernetic, parts: seq<BodySlot>, choice: int): Effect {
    if item.implantedOn.Some? then Effect(AlreadyInstalled, parts)
    else
      var candidates := Candidates(Tokens(item.slots), parts);
      if candidates == [] then Effect(NoEmptySlots, parts)
      else if 0 <= choice < |candidates| then Effect(Installed(candidates[choice]), Occupy(parts, candidates[choice], item.id))
      else Effect(Dismissed, parts)
  }

  /** One menu line: the part's ordinal name and its type. */
  function MenuEntry(part: BodySlot): string {
    part.ordinalName + " (" + part.slotType + ")"
  }

  /** GameObject.Unimplant as far as the body goes: the part the item is
      implanted on no longer holds anything; nothing else changes. A part
      outside this body (an index past its end) leaves the body as it is. */
  function Vacate(parts: seq<BodySlot>, k: nat): (after: seq<BodySlot>)
    ensures |after| == |parts|
    ensures k < |parts| ==> after[k].cybernetics.None? && after[k].slotType == parts[k].slotType && after[k].ordinalName == parts[k].ordinalName
    ensures forall i :: 0 <= i < |parts| && i != k ==> after[i] == parts[i]
  {
    if k < |parts| then parts[k := parts[k].(cybernetics := None)] else parts
  }

  /** Uninstall: refuse an item that is not implanted, else unimplant it. */
  function Removal(item: Cybernetic, parts: seq<BodySlot>): Effect {
    if item.implantedOn.None? then Effect(NotInstalled, parts)
    else Effect(Uninstalled, Vacate(parts, item.implantedOn.value))
  }

  // ---------------------------------------------------------------------
  // The operations on the body

  /** The inner foreach over the body parts in each pass of InstallAutomatic:
      the first part, in enumeration order, that fits the token. */
  method ScanForEmptyPart(trimmedSlot: string, body: array<BodySlot>) returns (targetSlot: Option<nat>)
    ensures targetSlot == FirstEmptyPart(trimmedSlot, body[..])
  {
    targetSlot := None;
    var k := 0;
    while k < body.Length
      invariant 0 <= k <= body.Length
      invariant forall k' :: 0 <= k' < k ==> !IsEmptyMatch(trimmedSlot, body[k'])
    {
      if body[k].slotType == trimmedSlot && body[k].cybernetics.None? {
        targetSlot := Some(k);
        break;
      }
      k := k + 1;
    }
    if targetSlot.Some? {
      FirstEmptyPartAt(trimmedSlot, body[..], k);
    } else {
      FirstEmptyPartIsFirst(trimmedSlot, body[..]);
    }
  }

  /** One pass of InstallAutomatic's slot search: the outer foreach over the
      tokens, skipping those not of the pass's kind (the dedicated tokens in
      pass 1, the others in pass 2). */
  method SearchPass(slotArray: seq<string>, body: array<BodySlot>, dedicated: bool) returns (targetSlot: Option<nat>)
    ensures targetSlot == FirstMatch(TrimAll(slotArray), body[..], dedicated)
  {
    ghost var tokens := TrimAll(slotArray);
    ghost var parts := body[..];
    targetSlot := None;
    var i := 0;
    while i < |slotArray|
      invariant 0 <= i <= |slotArray|
      invariant targetSlot.None?
      invariant FirstMatch(tokens[..i], parts, dedicated).None?
    {
      var trimmedSlot := Trim(slotArray[i]);
      assert trimmedSlot == tokens[i];
      if StartsWith(trimmedSlot, ImplantSlotPrefix) != dedicated {
        FirstMatchStep(tokens, parts, dedicated, i);
        i := i + 1;
        continue;
      }
      targetSlot := ScanForEmptyPart(trimmedSlot, body);
      FirstMatchStep(tokens, parts, dedicated, i);
      if targetSlot.Some? {
        FirstMatchPrefixStable(tokens, parts, dedicated, i + 1);
        break;
      }
      i := i + 1;
    }
    TakeAll(tokens);
  }

  /** InstallAutomatic's slot search: pass 1 over the dedicated tokens, pass 2
      over the others only if pass 1 found nothing. */
  method FindAutomaticSlot(slots: Option<string>, body: array<BodySlot>) returns (targetSlot: Option<nat>)
    ensures targetSlot == AutoPick(Tokens(slots), body[..])
    ensures targetSlot.Some? ==> targetSlot.value < body.Length && body[targetSlot.value].cybernetics.None?
  {
    targetSlot := None;
    if slots.Some? && slots.value != "" {
      var slotArray := Split(slots.value, ',');
      targetSlot := SearchPass(slotArray, body, true);
      if targetSlot.None? {
        targetSlot := SearchPass(slotArray, body, false);
      }
    }
  }

  /** The inner foreach over the body parts in InstallManual: every part that
      fits the token, in enumeration order, added to the list of the token's
      kind. */
  method CollectForToken(trimmedSlot: string, body: array<BodySlot>, implantSlots: seq<nat>, regularSlots: seq<nat>)
    returns (implantAfter: seq<nat>, regularAfter: seq<nat>)
    ensures implantAfter == implantSlots + (if IsDedicated(trimmedSlot) then MatchingParts(trimmedSlot, body[..]) else [])
    ensures regularAfter == regularSlots + (if IsDedicated(trimmedSlot) then [] else MatchingParts(trimmedSlot, body[..]))
  {
    ghost var parts := body[..];
    ghost var dedicated := IsDedicated(trimmedSlot);
    implantAfter, regularAfter := implantSlots, regularSlots;
    var k := 0;
    while k < body.Length
      invariant 0 <= k <= body.Length
      invariant implantAfter == implantSlots + (if dedicated then MatchingParts(trimmedSlot, parts[..k]) else [])
      invariant regularAfter == regularSlots + (if dedicated then [] else MatchingParts(trimmedSlot, parts[..k]))
    {
      MatchingPartsStep(trimmedSlot, parts, k);
      if body[k].slotType == trimmedSlot && body[k].cybernetics.None? {
        if StartsWith(trimmedSlot, ImplantSlotPrefix) {
          implantAfter := implantAfter + [k];
        } else {
          regularAfter := regularAfter + [k];
        }
      }
      k := k + 1;
    }
    TakeAll(parts);
  }

  /** InstallManual's candidate list: every fitting part per token, the
      dedicated tokens' parts first (implantSlots, then regularSlots). */
  method CollectCompatibleSlots(slots: Option<string>, body: array<BodySlot>) returns (compatibleSlots: seq<nat>)
    ensures compatibleSlots == Candidates(Tokens(slots), body[..])
  {
    var implantSlots: seq<nat> := [];
    var regularSlots: seq<nat> := [];
    if slots.Some? && slots.value != "" {
      var slotArray := Split(slots.value, ',');
      ghost var tokens := TrimAll(slotArray);
      ghost var parts := body[..];
      var i := 0;
      while i < |slotArray|
        invariant 0 <= i <= |slotArray|
        invariant implantSlots == Bucket(tokens[..i], parts, true)
        invariant regularSlots == Bucket(tokens[..i], parts, false)
      {
        var trimmedSlot := Trim(slotArray[i]);
        assert trimmedSlot == tokens[i];
        implantSlots, regularSlots := CollectForToken(trimmedSlot, body, implantSlots, regularSlots);
        BucketStep(tokens, parts, true, i);
        BucketStep(tokens, parts, false, i);
        i := i + 1;
      }
      TakeAll(tokens);
    }
    compatibleSlots := implantSlots + regularSlots;
  }

  /** The menu lines InstallManual builds before Popup.PickOption, one per
      candidate, in candidate order, so that the index the menu returns names
      a candidate. */
  method BuildMenuOptions(compatibleSlots: seq<nat>, body: array<BodySlot>) returns (options: seq<string>)
    requires forall i :: 0 <= i < |compatibleSlots| ==> compatibleSlots[i] < body.Length
    ensures |options| == |compatibleSlots|
    ensures forall i :: 0 <= i < |options| ==> options[i] == MenuEntry(body[compatibleSlots[i]])
  {
    options := [];
    var i := 0;
    while i < |compatibleSlots|
      invariant 0 <= i <= |compatibleSlots|
      invariant |options| == i
      invariant forall j :: 0 <= j < i ==> options[j] == MenuEntry(body[compatibleSlots[j]])
    {
      var part := body[compatibleSlots[i]];
      options := options + [part.ordinalName + " (" + part.slotType + ")"];
      i := i + 1;
    }
  }

  /** The host's BodyPart.Implant, abstracted: the part now holds the item. */
  method Implant(body: array<BodySlot>, k: nat, id: ItemId)
    requires k < body.Length && body[k].cybernetics.None?
    modifies body
    ensures body[..] == Occupy(old(body[..]), k, id)
  {
    body[k] := body[k].(cybernetics := Some(id));
  }

  /** The host's GameObject.Unimplant, abstracted: the item's part is freed. */
  method Unimplant(body: array<BodySlot>, k: nat)
    modifies body
    ensures body[..] == Vacate(old(body[..]), k)
  {
    if k < body.Length {
      body[k] := body[k].(cybernetics := None);
    }
  }

  /** Uninstall: "Not installed." for an item that is not implanted, else the
      host's Unimplant on the part the item is implanted on. */
  method Uninstall(item: Cybernetic, body: array<BodySlot>) returns (outcome: Outcome)
    modifies body
    ensures Effect(outcome, body[..]) == Removal(item, old(body[..]))
  {
    if item.implantedOn.None? {
      return NotInstalled;
    }
    Unimplant(body, item.implantedOn.value);
    outcome := Uninstalled;
  }

  /** InstallAutomatic: refuse an implanted item, else implant in the slot the
      two passes pick. */
  method InstallAutomatic(item: Cybernetic, body: array<BodySlot>) returns (outcome: Outcome)
    modifies body
    ensures Effect(outcome, body[..]) == AutomaticInstall(item, old(body[..]))
  {
    if item.implantedOn.Some? {
      return AlreadyInstalled;
    }
    var targetSlot := FindAutomaticSlot(item.slots, body);
    if targetSlot.Some? {
      Implant(body, targetSlot.value, item.id);
      outcome := Installed(targetSlot.value);
    } else {
      outcome := NoEmptySlot;
    }
  }

  /** InstallManual; choice is what the menu returns, and the menu is shown
      (options non-empty) only when there are candidates. */
  method InstallManual(item: Cybernetic, body: array<BodySlot>, choice: int) returns (outcome: Outcome, options: seq<string>)
    modifies body
    ensures Effect(outcome, body[..]) == ManualInstall(item, old(body[..]), choice)
    ensures options == if item.implantedOn.Some? then []
                       else seq(|Candidates(Tokens(item.slots), old(body[..]))|,
                                i requires 0 <= i < |Candidates(Tokens(item.slots), old(body[..]))| =>
                                  MenuEntry(old(body[..])[Candidates(Tokens(item.slots), old(body[..]))[i]]))
  {
    options := [];
    if item.implantedOn.Some? {
      return AlreadyInstalled, options;
    }
    var compatibleSlots := CollectCompatibleSlots(item.slots, body);
    if |compatibleSlots| == 0 {
      return NoEmptySlots, options;
    }
    options := BuildMenuOptions(compatibleSlots, body);
    if choice >= 0 && choice < |compatibleSlots| {
      var targetSlot := compatibleSlots[choice];
      Implant(body, targetSlot, item.id);
      outcome := Installed(targetSlot);
    } else {
      outcome := Dismissed;
    }
  }

  // ---------------------------------------------------------------------
  // Actions offered and dispatched

  const InstallAutoCommand: string := "InstallCyberneticAuto"
  const InstallManualCommand: string := "InstallCyberneticManual"
  const UninstallCommand: string := "UninstallCybernetic"

  /** An entry added with E.AddAction (its display text is left out). */
  datatype InventoryAction = InventoryAction(name: string, command: string, key: char, fireOnActor: bool, default: int)

  /** HandleEvent(OwnerGetInventoryActionsEvent): the actions added for an item. */
  function OfferActions(obj: Option<GameObject>): (added: seq<InventoryAction>)
    ensures obj.None? || obj.value.cybernetics.None? ==> added == []
    ensures forall a :: a in added ==> a.fireOnActor && a.default == -1
    ensures obj.Some? && obj.value.cybernetics.Some? ==>
      (set a | a in added :: (a.command, a.key)) ==
        if obj.value.cybernetics.value.implantedOn.None?
        then {(InstallAutoCommand, 'a'), (InstallManualCommand, 'm')}
        else {(UninstallCommand, 'u')}
  {
    if obj.None? || obj.value.cybernetics.None? then []
    else if obj.value.cybernetics.value.implantedOn.None? then
      [ InventoryAction("InstallAuto", InstallAutoCommand, 'a', true, -1),
        InventoryAction("InstallManual", InstallManualCommand, 'm', true, -1) ]
    else
      [ InventoryAction("Uninstall", UninstallCommand, 'u', true, -1) ]
  }

  /** What HandleEvent(InventoryActionEvent) did: the operation's outcome when
      it ran one, and whether it asked the host to close the interface. */
  datatype Handled = Handled(outcome: Option<Outcome>, interfaceExit: bool)

  /** HandleEvent(InventoryActionEvent), on the body's parts. */
  function HandleAction(command: string, obj: Option<GameObject>, hasParent: bool, parts: seq<BodySlot>, choice: int): (Handled, seq<BodySlot>) {
    if obj.None? || obj.value.cybernetics.None? || !hasParent then (Handled(None, false), parts)
    else
      var item := obj.value.cybernetics.value;
      if command == InstallAutoCommand then
        var e := AutomaticInstall(item, parts); (Handled(Some(e.outcome), true), e.parts)
      else if command == InstallManualCommand then
        var e := ManualInstall(item, parts, choice); (Handled(Some(e.outcome), true), e.parts)
      else if command == UninstallCommand then
        var e := Removal(item, parts); (Handled(Some(e.outcome), true), e.parts)
      else (Handled(None, false), parts)
  }

  /** HandleEvent(InventoryActionEvent); hasParent says whether the part's
      ParentObject is set. */
  method HandleInventoryAction(command: string, obj: Option<GameObject>, hasParent: bool, body: array<BodySlot>, choice: int)
    returns (handled: Handled)
    modifies body
    ensures (handled, body[..]) == HandleAction(command, obj, hasParent, old(body[..]), choice)
  {
    if obj.None? || obj.value.cybernetics.None? || !hasParent {
      return Handled(None, false);
    }
    var cyber := obj.value.cybernetics.value;
    if command == InstallAutoCommand {
      var outcome := InstallAutomatic(cyber, body);
      handled := Handled(Some(outcome), true);
    } else if command == InstallManualCommand {
      var outcome, _ := InstallManual(cyber, body, choice);
      handled := Handled(Some(outcome), true);
    } else if command == UninstallCommand {
      var outcome := Uninstall(cyber, body);
      handled := Handled(Some(outcome), true);
    } else {
      handled := Handled(None, false);
    }
  }

  // ---------------------------------------------------------------------
  // Properties of the operations

  /** An install changes at most one part: the one it reports, which was
      empty, has a type named in Slots, and now holds the item. */
  lemma InstallChangesOnlyChosenSlot(item: Cybernetic, parts: seq<BodySlot>, choice: int, manual: bool)
    ensures var e := if manual then ManualInstall(item, parts, choice) else AutomaticInstall(item, parts);
      && |e.parts| == |parts|
      && (e.outcome.Installed? ==>
            && e.outcome.slot < |parts|
            && parts[e.outcome.slot].cybernetics.None?
            && parts[e.outcome.slot].slotType in Tokens(item.slots)
            && e.parts == Occupy(parts, e.outcome.slot, item.id))
      && (!e.outcome.Installed? ==> e.parts == parts)
  {
  }

  /** Both installs refuse an implanted item and leave the body as it was. */
  lemma InstallRefusesImplanted(item: Cybernetic, parts: seq<BodySlot>, choice: int)
    requires item.implantedOn.Some?
    ensures AutomaticInstall(item, parts) == Effect(AlreadyInstalled, parts)
    ensures ManualInstall(item, parts, choice) == Effect(AlreadyInstalled, parts)
  {
  }

  /** The automatic install reports that no slot is available exactly when
      the item is not implanted and no token of its Slots fits an empty part. */
  lemma AutomaticInstallFindsSlotIff(item: Cybernetic, parts: seq<BodySlot>)
    ensures AutomaticInstall(item, parts).outcome == NoEmptySlot <==>
      && item.implantedOn.None?
      && forall j, k :: 0 <= j < |Tokens(item.slots)| && 0 <= k < |parts| ==> !IsEmptyMatch(Tokens(item.slots)[j], parts[k])
  {
    AutoPickNoneIff(Tokens(item.slots), parts);
  }

  /** The manual install changes the body exactly when the item is not
      implanted and the menu index is in range; any other index, cancelling
      included, changes nothing. */
  lemma ManualInstallChoiceBounds(item: Cybernetic, parts: seq<BodySlot>, choice: int)
    ensures ManualInstall(item, parts, choice).parts != parts <==>
      item.implantedOn.None? && 0 <= choice < |Candidates(Tokens(item.slots), parts)|
  {
    var candidates := Candidates(Tokens(item.slots), parts);
    if item.implantedOn.None? && 0 <= choice < |candidates| {
      var k := candidates[choice];
      assert ManualInstall(item, parts, choice).parts[k].cybernetics != parts[k].cybernetics;
    }
  }

  /** Taking the first line of the manual menu does what the automatic install
      does. */
  lemma ManualFirstChoiceIsAutomatic(item: Cybernetic, parts: seq<BodySlot>)
    requires Candidates(Tokens(item.slots), parts) != []
    ensures ManualInstall(item, parts, 0) == AutomaticInstall(item, parts)
  {
    CandidatesHeadIsAutoPick(Tokens(item.slots), parts);
  }

  /** The manual install finds no slot exactly when the automatic one does not. */
  lemma ManualInstallNoSlotIff(item: Cybernetic, parts: seq<BodySlot>, choice: int)
    ensures ManualInstall(item, parts, choice).outcome == NoEmptySlots <==> AutomaticInstall(item, parts).outcome == NoEmptySlot
  {
    CandidatesHeadIsAutoPick(Tokens(item.slots), parts);
  }

  /** A command other than the three runs nothing, closes nothing and changes
      nothing; so does any command without an item, a cybernetic or a parent. */
  lemma UnrecognisedCommandIgnored(command: string, obj: Option<GameObject>, hasParent: bool, parts: seq<BodySlot>, choice: int)
    requires || command !in {InstallAutoCommand, InstallManualCommand, UninstallCommand}
             || obj.None? || obj.value.cybernetics.None? || !hasParent
    ensures HandleAction(command, obj, hasParent, parts, choice) == (Handled(None, false), parts)
  {
  }

  /** The uninstall command refuses exactly an item that is not implanted,
      leaving the body as it was; otherwise it frees the item's part and
      changes no other part. */
  lemma UninstallGuard(item: Cybernetic, parts: seq<BodySlot>, choice: int)
    ensures var (h, after) := HandleAction(UninstallCommand, Some(GameObject(Some(item))), true, parts, choice);
      && h.interfaceExit && |after| == |parts|
      && (h.outcome == Some(NotInstalled) <==> item.implantedOn.None?)
      && (item.implantedOn.None? ==> after == parts)
      && (item.implantedOn.Some? ==>
            && h.outcome == Some(Uninstalled)
            && (item.implantedOn.value < |parts| ==> after[item.implantedOn.value].cybernetics.None?)
            && forall i :: 0 <= i < |parts| && i != item.implantedOn.value ==> after[i] == parts[i])
  {
  }

  /** Uninstalling an item right after an install puts the body back as it
      was: the install filled an empty part, and the item is now implanted on
      that part, which the uninstall frees. */
  lemma {:induction false} UninstallUndoesInstall(item: Cybernetic, parts: seq<BodySlot>, choice: int, manual: bool)
    ensures var e := if manual then ManualInstall(item, parts, choice) else AutomaticInstall(item, parts);
      e.outcome.Installed? ==> Removal(item.(implantedOn := Some(e.outcome.slot)), e.parts) == Effect(Uninstalled, parts)
  {
    var e := if manual then ManualInstall(item, parts, choice) else AutomaticInstall(item, parts);
    if e.outcome.Installed? {
      InstallChangesOnlyChosenSlot(item, parts, choice, manual);
      var k := e.outcome.slot;
      var back := Vacate(e.parts, k);
      assert back == parts by {
        PointwiseEqual(back, parts);
      }
    }
  }

  /** The commands offered for an item are exactly those of the three whose
      operation does not refuse it as already installed or not installed. */
  lemma OfferedIffAccepted(item: Cybernetic, parts: seq<BodySlot>, choice: int, command: string)
    requires command in {InstallAutoCommand, InstallManualCommand, UninstallCommand}
    ensures var (h, _) := HandleAction(command, Some(GameObject(Some(item))), true, parts, choice);
      (exists a :: a in OfferActions(Some(GameObject(Some(item)))) && a.command == command) <==>
        h.outcome.Some? && h.outcome.value !in {AlreadyInstalled, NotInstalled}
  {
    var offered := OfferActions(Some(GameObject(Some(item))));
    if item.implantedOn.None? {
      assert offered[0].command == InstallAutoCommand && offered[1].command == InstallManualCommand;
    } else {
      assert offered[0].command == UninstallCommand;
    }
  }

  /** Two sequential passes, not one merged ranking: for an item whose Slots
      reads "ImplantSlotHeart,Chest", with the dedicated heart slot occupied
      and the chest free, the automatic install goes to the chest. */
  lemma OccupiedDedicatedSlotFallsBackToRegular(item: Cybernetic)
    requires item.implantedOn.None? && item.slots == Some("ImplantSlotHeart,Chest")
    ensures AutomaticInstall(item, HeartTakenChestFree()) == Effect(Installed(1), Occupy(HeartTakenChestFree(), 1, item.id))
  {
    HeartChestTokens();
    HeartTakenGoesToChest(item);
  }

  /** The scenario above, for any item whose tokens are those two types. */
  lemma HeartTakenGoesToChest(item: Cybernetic)
    requires item.implantedOn.None? && Tokens(item.slots) == ["ImplantSlotHeart", "Chest"]
    ensures AutomaticInstall(item, HeartTakenChestFree()) == Effect(Installed(1), Occupy(HeartTakenChestFree(), 1, item.id))
  {
    var parts := HeartTakenChestFree();
    var tokens := ["ImplantSlotHeart", "Chest"];
    assert !HasEmptyMatch(tokens[0], parts);
    assert FirstMatch(tokens, parts, true).None? by {
      FirstMatchNoneIff(tokens, parts, true);
    }
    FirstEmptyPartAt(tokens[1], parts, 1);
  }

  /** The Slots string "ImplantSlotHeart,Chest" gives its two types as tokens. */
  lemma HeartChestTokens()
    ensures Tokens(Some("ImplantSlotHeart,Chest")) == ["ImplantSlotHeart", "Chest"]
  {
    var types := ["ImplantSlotHeart", "Chest"];
    assert types[1..] == ["Chest"];
    TrimFixesTrimmed(types[0]);
    TrimFixesTrimmed(types[1]);
    assert Join(types, ',') == "ImplantSlotHeart,Chest";
    TokensOfJoin(types);
  }

  /** A body with an occupied dedicated heart slot and a free chest. */
  function HeartTakenChestFree(): (parts: seq<BodySlot>)
    ensures |parts| == 2 && parts[0].cybernetics.Some? && parts[1].cybernetics.None?
  {
    [BodySlot("ImplantSlotHeart", Some(7), "heart"), BodySlot("Chest", None, "chest")]
  }
}
