/**
 * The slot resolver of DirectCyberInstall_PlayerPart as pure functions: the
 * tokens of a cybernetic's Slots string, the automatic two-pass pick and the
 * manual candidate list, over a body given as the sequence of its parts in
 * the order Body.GetParts() enumerates them. A part is named by its index in
 * that sequence.
 */
module SlotResolver {
  import opened Wrappers
  import opened NetStrings
  import opened SeqFacts

  /** Identity of an implantable item. */
  type ItemId = nat

  /** A body part: its Type, the cybernetic implanted in it (null when the
      part is empty) and its ordinal name as the host renders it. */
  datatype BodySlot = BodySlot(slotType: string, cybernetics: Option<ItemId>, ordinalName: string)

  /** Slot types starting with this prefix are dedicated implant slots. */
  const ImplantSlotPrefix: string := "ImplantSlot"

  predicate IsDedicated(token: string) {
    StartsWith(token, ImplantSlotPrefix)
  }

  /** A part fits a token when its type equals the token and it is empty. */
  predicate IsEmptyMatch(token: string, part: BodySlot) {
    part.slotType == token && part.cybernetics.None?
  }

  predicate HasEmptyMatch(token: string, parts: seq<BodySlot>) {
    exists k :: 0 <= k < |parts| && IsEmptyMatch(token, parts[k])
  }

  /** Some token of the given kind (dedicated or regular) fits some part. */
  predicate PassHasMatch(tokens: seq<string>, parts: seq<BodySlot>, dedicated: bool) {
    exists j :: 0 <= j < |tokens| && IsDedicated(tokens[j]) == dedicated && HasEmptyMatch(tokens[j], parts)
  }

  function TrimAll(raw: seq<string>): seq<string> {
    seq(|raw|, i requires 0 <= i < |raw| => Trim(raw[i]))
  }

  /** The trimmed tokens of the Slots string; a null or empty string has none. */
  function Tokens(slots: Option<string>): seq<string> {
    if slots.None? || slots.value == "" then [] else TrimAll(Split(slots.value, ','))
  }

  /** The indices of the parts that fit the token, in enumeration order
      (see MatchingPartsSound, MatchingPartsComplete, MatchingPartsCount). */
  function MatchingParts(token: string, parts: seq<BodySlot>): seq<nat>
    decreases |parts|
  {
    if parts == [] then []
    else
      var n := |parts| - 1;
      MatchingParts(token, parts[..n]) + (if IsEmptyMatch(token, parts[n]) then [n] else [])
  }

  /** Only parts that fit the token are listed, in increasing order. */
  lemma {:induction false} MatchingPartsSound(token: string, parts: seq<BodySlot>)
    ensures forall i :: 0 <= i < |MatchingParts(token, parts)| ==>
      MatchingParts(token, parts)[i] < |parts| && IsEmptyMatch(token, parts[MatchingParts(token, parts)[i]])
    ensures forall i, j :: 0 <= i < j < |MatchingParts(token, parts)| ==> MatchingParts(token, parts)[i] < MatchingParts(token, parts)[j]
    decreases |parts|
  {
    if parts != [] {
      var n := |parts| - 1;
      MatchingPartsSound(token, parts[..n]);
    }
  }

  /** Every part that fits the token is listed. */
  lemma {:induction false} MatchingPartsComplete(token: string, parts: seq<BodySlot>)
    ensures forall k :: 0 <= k < |parts| && IsEmptyMatch(token, parts[k]) ==> k in MatchingParts(token, parts)
    decreases |parts|
  {
    if parts != [] {
      var n := |parts| - 1;
      MatchingPartsComplete(token, parts[..n]);
      assert forall k :: 0 <= k < n ==> parts[..n][k] == parts[k];
    }
  }

  /** The first part that fits the token (the inner foreach with its break;
      characterised by FirstEmptyPartIsFirst). */
  function FirstEmptyPart(token: string, parts: seq<BodySlot>): Option<nat> {
    var m := MatchingParts(token, parts);
    if m == [] then None else Some(m[0])
  }

  /** The first fitting part, or nothing exactly when no part fits. */
  lemma FirstEmptyPartIsFirst(token: string, parts: seq<BodySlot>)
    ensures FirstEmptyPart(token, parts).None? <==> !HasEmptyMatch(token, parts)
    ensures FirstEmptyPart(token, parts).Some? ==>
      var k := FirstEmptyPart(token, parts).value;
      && k < |parts| && IsEmptyMatch(token, parts[k])
      && forall k' :: 0 <= k' < k ==> !IsEmptyMatch(token, parts[k'])
  {
    MatchingPartsSound(token, parts);
    MatchingPartsComplete(token, parts);
  }

  /** One pass of InstallAutomatic: the first fitting part of the earliest
      token of the given kind that has one. */
  function FirstMatch(tokens: seq<string>, parts: seq<BodySlot>, dedicated: bool): Option<nat>
    decreases |tokens|
  {
    if tokens == [] then None
    else
      var earlier := FirstMatch(tokens[..|tokens| - 1], parts, dedicated);
      var last := tokens[|tokens| - 1];
      if earlier.Some? then earlier
      else if IsDedicated(last) == dedicated then FirstEmptyPart(last, parts)
      else None
  }

  /** InstallAutomatic's choice: pass 1 over the dedicated tokens, and pass 2
      over the others only when pass 1 found nothing. */
  function AutoPick(tokens: seq<string>, parts: seq<BodySlot>): (r: Option<nat>)
    ensures r.Some? ==> r.value < |parts| && parts[r.value].cybernetics.None? && parts[r.value].slotType in tokens
  {
    FirstMatchSound(tokens, parts, true);
    FirstMatchSound(tokens, parts, false);
    var implant := FirstMatch(tokens, parts, true);
    if implant.Some? then implant else FirstMatch(tokens, parts, false)
  }

  /** A pass picks an empty part whose type is a token of the pass's kind. */
  lemma {:induction false} FirstMatchSound(tokens: seq<string>, parts: seq<BodySlot>, dedicated: bool)
    ensures var r := FirstMatch(tokens, parts, dedicated);
      r.Some? ==> && r.value < |parts| && parts[r.value].cybernetics.None?
                  && parts[r.value].slotType in tokens && IsDedicated(parts[r.value].slotType) == dedicated
    decreases |tokens|
  {
    if tokens != [] {
      var init := tokens[..|tokens| - 1];
      FirstMatchSound(init, parts, dedicated);
      FirstEmptyPartIsFirst(tokens[|tokens| - 1], parts);
      if FirstMatch(init, parts, dedicated).Some? {
        var t := parts[FirstMatch(init, parts, dedicated).value].slotType;
        var j :| 0 <= j < |init| && init[j] == t;
        assert tokens[j] == t;
      }
    }
  }

  /** One bucket of InstallManual: for each token of the given kind in order,
      every part that fits it in enumeration order. */
  function Bucket(tokens: seq<string>, parts: seq<BodySlot>, dedicated: bool): seq<nat>
    decreases |tokens|
  {
    if tokens == [] then []
    else
      var last := tokens[|tokens| - 1];
      Bucket(tokens[..|tokens| - 1], parts, dedicated)
        + (if IsDedicated(last) == dedicated then MatchingParts(last, parts) else [])
  }

  /** InstallManual's compatibleSlots: the dedicated bucket, then the regular one. */
  function Candidates(tokens: seq<string>, parts: seq<BodySlot>): (r: seq<nat>)
    ensures forall i :: 0 <= i < |r| ==> r[i] < |parts| && parts[r[i]].cybernetics.None? && parts[r[i]].slotType in tokens
  {
    BucketSound(tokens, parts, true);
    BucketSound(tokens, parts, false);
    Bucket(tokens, parts, true) + Bucket(tokens, parts, false)
  }

  /** A bucket holds only empty parts whose type is a token of its kind. */
  lemma {:induction false} BucketSound(tokens: seq<string>, parts: seq<BodySlot>, dedicated: bool)
    ensures forall i :: 0 <= i < |Bucket(tokens, parts, dedicated)| ==>
      && Bucket(tokens, parts, dedicated)[i] < |parts|
      && parts[Bucket(tokens, parts, dedicated)[i]].cybernetics.None?
      && parts[Bucket(tokens, parts, dedicated)[i]].slotType in tokens
      && IsDedicated(parts[Bucket(tokens, parts, dedicated)[i]].slotType) == dedicated
    decreases |tokens|
  {
    if tokens != [] {
      var init := tokens[..|tokens| - 1];
      var last := tokens[|tokens| - 1];
      BucketSound(init, parts, dedicated);
      MatchingPartsSound(last, parts);
      var b := Bucket(tokens, parts, dedicated);
      var front := Bucket(init, parts, dedicated);
      var extra := if IsDedicated(last) == dedicated then MatchingParts(last, parts) else [];
      assert b == front + extra;
      forall i | 0 <= i < |b|
        ensures b[i] < |parts| && parts[b[i]].cybernetics.None? && parts[b[i]].slotType in tokens
        ensures IsDedicated(parts[b[i]].slotType) == dedicated
      {
        if i < |front| {
          assert b[i] == front[i];
          assert parts[b[i]].slotType in init;
        } else {
          assert b[i] == extra[i - |front|];
          assert parts[b[i]].slotType == tokens[|tokens| - 1];
        }
      }
    }
  }

  // ---------------------------------------------------------------------
  // One step of each loop that computes these functions

  /** The first k parts extended by one. */
  lemma MatchingPartsStep(token: string, parts: seq<BodySlot>, k: nat)
    requires k < |parts|
    ensures MatchingParts(token, parts[..k + 1]) == MatchingParts(token, parts[..k]) + (if IsEmptyMatch(token, parts[k]) then [k] else [])
  {
    TakeOfTake(parts, k, k + 1);
  }

  /** The first i tokens extended by one, for a bucket. */
  lemma BucketStep(tokens: seq<string>, parts: seq<BodySlot>, dedicated: bool, i: nat)
    requires i < |tokens|
    ensures Bucket(tokens[..i + 1], parts, dedicated) ==
      Bucket(tokens[..i], parts, dedicated) + (if IsDedicated(tokens[i]) == dedicated then MatchingParts(tokens[i], parts) else [])
  {
    TakeOfTake(tokens, i, i + 1);
  }

  /** The first i tokens extended by one, for a pass that found nothing yet. */
  lemma FirstMatchStep(tokens: seq<string>, parts: seq<BodySlot>, dedicated: bool, i: nat)
    requires i < |tokens|
    requires FirstMatch(tokens[..i], parts, dedicated).None?
    ensures FirstMatch(tokens[..i + 1], parts, dedicated) ==
      if IsDedicated(tokens[i]) == dedicated then FirstEmptyPart(tokens[i], parts) else None
  {
    TakeOfTake(tokens, i, i + 1);
  }

  /** A fitting part with no fitting part before it is the first one. */
  lemma FirstEmptyPartAt(token: string, parts: seq<BodySlot>, k: nat)
    requires k < |parts| && IsEmptyMatch(token, parts[k])
    requires forall k' :: 0 <= k' < k ==> !IsEmptyMatch(token, parts[k'])
    ensures FirstEmptyPart(token, parts) == Some(k)
  {
    assert HasEmptyMatch(token, parts);
    FirstEmptyPartIsFirst(token, parts);
  }

  // ---------------------------------------------------------------------
  // The automatic pick

  /** k is what one pass must pick through token j: token j is of the pass's
      kind and fits part k, no earlier token of that kind fits any part, and
      no earlier part fits token j. */
  ghost predicate PickedVia(tokens: seq<string>, parts: seq<BodySlot>, dedicated: bool, j: nat, k: nat) {
    && j < |tokens| && k < |parts|
    && IsDedicated(tokens[j]) == dedicated && IsEmptyMatch(tokens[j], parts[k])
    && (forall j' :: 0 <= j' < j && IsDedicated(tokens[j']) == dedicated ==> !HasEmptyMatch(tokens[j'], parts))
    && (forall k' :: 0 <= k' < k ==> !IsEmptyMatch(tokens[j], parts[k']))
  }

  /** k is what one pass must pick, through some token. */
  ghost predicate IsFirstInPass(tokens: seq<string>, parts: seq<BodySlot>, dedicated: bool, k: nat) {
    exists j: nat :: PickedVia(tokens, parts, dedicated, j, k)
  }

  /** Once a prefix of the tokens has produced a pick, later tokens do not change it
      (the outer break). */
  lemma {:induction false} FirstMatchPrefixStable(tokens: seq<string>, parts: seq<BodySlot>, dedicated: bool, m: nat)
    requires m <= |tokens|
    requires FirstMatch(tokens[..m], parts, dedicated).Some?
    ensures FirstMatch(tokens, parts, dedicated) == FirstMatch(tokens[..m], parts, dedicated)
    decreases |tokens|
  {
    if m < |tokens| {
      var init := tokens[..|tokens| - 1];
      TakeOfTake(tokens, m, |tokens| - 1);
      FirstMatchPrefixStable(init, parts, dedicated, m);
      assert FirstMatch(tokens, parts, dedicated) == FirstMatch(init, parts, dedicated);
    } else {
      TakeAll(tokens);
    }
  }

  /** A pass finds nothing exactly when no token of its kind fits any part. */
  lemma {:induction false} FirstMatchNoneIff(tokens: seq<string>, parts: seq<BodySlot>, dedicated: bool)
    ensures FirstMatch(tokens, parts, dedicated).None? <==> !PassHasMatch(tokens, parts, dedicated)
    decreases |tokens|
  {
    if tokens != [] {
      var init := tokens[..|tokens| - 1];
      var last := tokens[|tokens| - 1];
      FirstMatchNoneIff(init, parts, dedicated);
      FirstEmptyPartIsFirst(last, parts);
      if PassHasMatch(init, parts, dedicated) {
        var j :| 0 <= j < |init| && IsDedicated(init[j]) == dedicated && HasEmptyMatch(init[j], parts);
        assert tokens[j] == init[j];
      }
      if PassHasMatch(tokens, parts, dedicated) {
        var j :| 0 <= j < |tokens| && IsDedicated(tokens[j]) == dedicated && HasEmptyMatch(tokens[j], parts);
        if j < |init| {
          assert init[j] == tokens[j];
        }
      }
    }
  }

  /** The pick of a pass is the first in the sense of IsFirstInPass. */
  lemma {:induction false} FirstMatchIsFirst(tokens: seq<string>, parts: seq<BodySlot>, dedicated: bool)
    requires FirstMatch(tokens, parts, dedicated).Some?
    ensures IsFirstInPass(tokens, parts, dedicated, FirstMatch(tokens, parts, dedicated).value)
    decreases |tokens|
  {
    var init := tokens[..|tokens| - 1];
    var k := FirstMatch(tokens, parts, dedicated).value;
    if FirstMatch(init, parts, dedicated).Some? {
      FirstMatchIsFirst(init, parts, dedicated);
      var j: nat :| PickedVia(init, parts, dedicated, j, k);
      assert PickedVia(tokens, parts, dedicated, j, k) by {
        assert forall j' :: 0 <= j' <= j ==> tokens[j'] == init[j'];
      }
    } else {
      FirstMatchNoneIff(init, parts, dedicated);
      var j := |tokens| - 1;
      FirstEmptyPartIsFirst(tokens[j], parts);
      forall j' | 0 <= j' < j && IsDedicated(tokens[j']) == dedicated
        ensures !HasEmptyMatch(tokens[j'], parts)
      {
        assert init[j'] == tokens[j'];
      }
      assert PickedVia(tokens, parts, dedicated, j, k);
    }
  }

  /** Two tokens' picks agree: a pass has at most one first pick. */
  lemma PickedViaUnique(tokens: seq<string>, parts: seq<BodySlot>, dedicated: bool, j: nat, k: nat, j2: nat, k2: nat)
    requires PickedVia(tokens, parts, dedicated, j, k) && PickedVia(tokens, parts, dedicated, j2, k2)
    ensures j == j2 && k == k2
  {
    assert HasEmptyMatch(tokens[j], parts);
    assert HasEmptyMatch(tokens[j2], parts);
  }

  /** A pass's pick is characterised by IsFirstInPass: both directions. */
  lemma FirstMatchIff(tokens: seq<string>, parts: seq<BodySlot>, dedicated: bool, k: nat)
    ensures FirstMatch(tokens, parts, dedicated) == Some(k) <==> IsFirstInPass(tokens, parts, dedicated, k)
  {
    if IsFirstInPass(tokens, parts, dedicated, k) {
      var j: nat :| PickedVia(tokens, parts, dedicated, j, k);
      assert HasEmptyMatch(tokens[j], parts);
      FirstMatchNoneIff(tokens, parts, dedicated);
      FirstMatchIsFirst(tokens, parts, dedicated);
      var k2 := FirstMatch(tokens, parts, dedicated).value;
      var j2: nat :| PickedVia(tokens, parts, dedicated, j2, k2);
      PickedViaUnique(tokens, parts, dedicated, j, k, j2, k2);
    }
    if FirstMatch(tokens, parts, dedicated) == Some(k) {
      FirstMatchIsFirst(tokens, parts, dedicated);
    }
  }

  /** The automatic pick, stated without the algorithm: the first fitting part
      of the first dedicated token with one; failing any, the same for the
      regular tokens. */
  lemma AutoPickIff(tokens: seq<string>, parts: seq<BodySlot>, k: nat)
    ensures AutoPick(tokens, parts) == Some(k) <==>
      (|| IsFirstInPass(tokens, parts, true, k)
       || (!PassHasMatch(tokens, parts, true) && IsFirstInPass(tokens, parts, false, k)))
  {
    FirstMatchIff(tokens, parts, true, k);
    FirstMatchIff(tokens, parts, false, k);
    FirstMatchNoneIff(tokens, parts, true);
  }

  /** Nothing is picked exactly when no token fits any part. */
  lemma AutoPickNoneIff(tokens: seq<string>, parts: seq<BodySlot>)
    ensures AutoPick(tokens, parts).None? <==>
      forall j, k :: 0 <= j < |tokens| && 0 <= k < |parts| ==> !IsEmptyMatch(tokens[j], parts[k])
  {
    FirstMatchNoneIff(tokens, parts, true);
    FirstMatchNoneIff(tokens, parts, false);
    if exists j, k :: 0 <= j < |tokens| && 0 <= k < |parts| && IsEmptyMatch(tokens[j], parts[k]) {
      var j, k :| 0 <= j < |tokens| && 0 <= k < |parts| && IsEmptyMatch(tokens[j], parts[k]);
      assert HasEmptyMatch(tokens[j], parts);
      assert PassHasMatch(tokens, parts, IsDedicated(tokens[j]));
    }
  }

  /** Pass-1 precedence: when some dedicated token fits an empty part, the pick
      is a part of dedicated type, and the converse. */
  lemma DedicatedPrecedence(tokens: seq<string>, parts: seq<BodySlot>)
    ensures PassHasMatch(tokens, parts, true) <==>
      (AutoPick(tokens, parts).Some? && IsDedicated(parts[AutoPick(tokens, parts).value].slotType))
  {
    FirstMatchNoneIff(tokens, parts, true);
    FirstMatchSound(tokens, parts, true);
    FirstMatchSound(tokens, parts, false);
    var r := AutoPick(tokens, parts);
    if r.Some? && IsDedicated(parts[r.value].slotType) {
      var t := parts[r.value].slotType;
      var j :| 0 <= j < |tokens| && tokens[j] == t;
      assert IsEmptyMatch(tokens[j], parts[r.value]);
      assert HasEmptyMatch(tokens[j], parts);
    }
  }

  // ---------------------------------------------------------------------
  // The manual candidate list

  /** The bucket of a concatenation of token lists is the concatenation of
      their buckets: the list is built token-major. */
  lemma {:induction false} BucketAppend(a: seq<string>, b: seq<string>, parts: seq<BodySlot>, dedicated: bool)
    ensures Bucket(a + b, parts, dedicated) == Bucket(a, parts, dedicated) + Bucket(b, parts, dedicated)
    decreases |b|
  {
    if b == [] {
      assert a + b == a;
    } else {
      var front := b[..|b| - 1];
      var x := b[|b| - 1];
      var extra := if IsDedicated(x) == dedicated then MatchingParts(x, parts) else [];
      BucketAppend(a, front, parts, dedicated);
      assert Bucket(a + b, parts, dedicated) == Bucket(a + front, parts, dedicated) + extra by {
        SplitLast(b);
        AppendAssociates(a, front, [x]);
        BucketSnoc(a + front, x, parts, dedicated);
      }
      assert Bucket(b, parts, dedicated) == Bucket(front, parts, dedicated) + extra by {
        SplitLast(b);
        BucketSnoc(front, x, parts, dedicated);
      }
      AppendAssociates(Bucket(a, parts, dedicated), Bucket(front, parts, dedicated), extra);
    }
  }

  /** Appending one token appends that token's contribution. */
  lemma BucketSnoc(tokens: seq<string>, x: string, parts: seq<BodySlot>, dedicated: bool)
    ensures Bucket(tokens + [x], parts, dedicated) ==
      Bucket(tokens, parts, dedicated) + (if IsDedicated(x) == dedicated then MatchingParts(x, parts) else [])
  {
    TakeOfSnoc(tokens, x);
  }

  /** Splitting the tokens anywhere splits the bucket there. */
  lemma BucketSplits(tokens: seq<string>, parts: seq<BodySlot>, dedicated: bool, m: nat)
    requires m <= |tokens|
    ensures Bucket(tokens, parts, dedicated) == Bucket(tokens[..m], parts, dedicated) + Bucket(tokens[m..], parts, dedicated)
  {
    BucketAppend(tokens[..m], tokens[m..], parts, dedicated);
    SplitAt(tokens, m);
  }

  /** A single token's contribution: the fitting parts in enumeration order. */
  lemma BucketOfOneToken(token: string, parts: seq<BodySlot>, dedicated: bool)
    ensures Bucket([token], parts, dedicated) == if IsDedicated(token) == dedicated then MatchingParts(token, parts) else []
  {
    assert [token][..0] == [];
  }

  /** The parts that fit a token, each once. */
  lemma {:induction false} MatchingPartsCount(token: string, parts: seq<BodySlot>, k: nat)
    ensures multiset(MatchingParts(token, parts))[k] == if k < |parts| && IsEmptyMatch(token, parts[k]) then 1 else 0
    decreases |parts|
  {
    if parts != [] {
      var n := |parts| - 1;
      var init := MatchingParts(token, parts[..n]);
      MatchingPartsCount(token, parts[..n], k);
      if IsEmptyMatch(token, parts[n]) {
        assert MatchingParts(token, parts) == init + [n];
        MultisetSnocCount(init, n, k);
      } else {
        assert MatchingParts(token, parts) == init + [];
        AppendEmpty(init);
      }
      if k < n {
        assert parts[..n][k] == parts[k];
      }
    }
  }

  /** In a bucket, an empty part appears once for every token of the bucket's
      kind that names its type. */
  lemma {:induction false} BucketCount(tokens: seq<string>, parts: seq<BodySlot>, dedicated: bool, k: nat)
    requires k < |parts|
    ensures multiset(Bucket(tokens, parts, dedicated))[k] ==
      if parts[k].cybernetics.None? && IsDedicated(parts[k].slotType) == dedicated then multiset(tokens)[parts[k].slotType] else 0
    decreases |tokens|
  {
    if tokens != [] {
      var init := tokens[..|tokens| - 1];
      var last := tokens[|tokens| - 1];
      var t := parts[k].slotType;
      var fits := parts[k].cybernetics.None? && IsDedicated(t) == dedicated;
      var extra := if IsDedicated(last) == dedicated then MatchingParts(last, parts) else [];
      BucketCount(init, parts, dedicated, k);
      assert multiset(Bucket(tokens, parts, dedicated))[k] == multiset(Bucket(init, parts, dedicated))[k] + multiset(extra)[k] by {
        assert Bucket(tokens, parts, dedicated) == Bucket(init, parts, dedicated) + extra;
      }
      assert multiset(extra)[k] == if fits && last == t then 1 else 0 by {
        MatchingPartsCount(last, parts, k);
      }
      SplitLast(tokens);
      MultisetSnocCount(init, last, t);
    }
  }

  /** Duplicates are kept: an empty part appears in the candidate list once per
      token naming its type, and an occupied part never appears. */
  lemma CandidatesCount(tokens: seq<string>, parts: seq<BodySlot>, k: nat)
    requires k < |parts|
    ensures multiset(Candidates(tokens, parts))[k] ==
      if parts[k].cybernetics.None? then multiset(tokens)[parts[k].slotType] else 0
  {
    BucketCount(tokens, parts, true, k);
    BucketCount(tokens, parts, false, k);
  }

  /** Every dedicated-slot entry precedes every regular-slot entry. */
  lemma CandidatesDedicatedFirst(tokens: seq<string>, parts: seq<BodySlot>)
    ensures forall a, b :: (0 <= a < b < |Candidates(tokens, parts)| && IsDedicated(parts[Candidates(tokens, parts)[b]].slotType))
                          ==> IsDedicated(parts[Candidates(tokens, parts)[a]].slotType)
  {
    BucketSound(tokens, parts, true);
    BucketSound(tokens, parts, false);
    var implant := Bucket(tokens, parts, true);
    var regular := Bucket(tokens, parts, false);
    var c := Candidates(tokens, parts);
    forall b | |implant| <= b < |c| ensures !IsDedicated(parts[c[b]].slotType) {
      assert c[b] == regular[b - |implant|];
    }
    forall a | 0 <= a < |implant| ensures IsDedicated(parts[c[a]].slotType) {
      assert c[a] == implant[a];
    }
  }

  /** A bucket is empty exactly when its pass finds nothing, and otherwise it
      starts with that pass's pick. */
  lemma {:induction false} BucketHead(tokens: seq<string>, parts: seq<BodySlot>, dedicated: bool)
    ensures Bucket(tokens, parts, dedicated) == [] <==> FirstMatch(tokens, parts, dedicated).None?
    ensures Bucket(tokens, parts, dedicated) != [] ==> FirstMatch(tokens, parts, dedicated) == Some(Bucket(tokens, parts, dedicated)[0])
    decreases |tokens|
  {
    if tokens != [] {
      BucketHead(tokens[..|tokens| - 1], parts, dedicated);
    }
  }

  /** The candidate list is empty exactly when the automatic pick is nothing,
      and otherwise its head is the automatic pick. */
  lemma CandidatesHeadIsAutoPick(tokens: seq<string>, parts: seq<BodySlot>)
    ensures Candidates(tokens, parts) == [] <==> AutoPick(tokens, parts).None?
    ensures Candidates(tokens, parts) != [] ==> AutoPick(tokens, parts) == Some(Candidates(tokens, parts)[0])
  {
    BucketHead(tokens, parts, true);
    BucketHead(tokens, parts, false);
  }

  /** A null or empty Slots string picks nothing and offers nothing. */
  lemma MissingSlotsSelectNothing(slots: Option<string>, parts: seq<BodySlot>)
    requires slots.None? || slots == Some("")
    ensures AutoPick(Tokens(slots), parts).None?
    ensures Candidates(Tokens(slots), parts) == []
  {
  }

  /** A Slots string written as trimmed, comma-free types joined by commas
      gives those types back as its tokens. */
  lemma TokensOfJoin(types: seq<string>)
    requires |types| >= 1 && Join(types, ',') != ""
    requires forall i :: 0 <= i < |types| ==> ',' !in types[i] && Trim(types[i]) == types[i]
    ensures Tokens(Some(Join(types, ','))) == types
  {
    SplitJoin(types, ',');
    PointwiseEqual(TrimAll(types), types);
  }

  /** The tokens of a non-empty Slots string are its comma-separated pieces,
      trimmed: none holds a comma or starts or ends with white space, and
      there are as many of them as Split gives pieces. */
  lemma TokensOfSlots(s: string)
    requires s != ""
    ensures |Tokens(Some(s))| == |Split(s, ',')| >= 1
    ensures forall i :: 0 <= i < |Tokens(Some(s))| ==> ',' !in Tokens(Some(s))[i]
    ensures forall i :: 0 <= i < |Tokens(Some(s))| ==> Trim(Tokens(Some(s))[i]) == Tokens(Some(s))[i]
  {
    var raw := Split(s, ',');
    var tokens := Tokens(Some(s));
    assert tokens == TrimAll(raw);
    forall i | 0 <= i < |tokens| ensures ',' !in tokens[i] && Trim(tokens[i]) == tokens[i] {
      assert tokens[i] == Trim(raw[i]);
      TrimIdempotent(raw[i]);
      TrimKeepsAbsent(raw[i], ',');
    }
  }
}
