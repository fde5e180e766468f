/**
  The name of an instance started inside another one, when its lane is not given
  explicitly (src/gtk/app_state.c:109-129, 305-377).
 */
module NestedSlots {
  import opened Decimals
  import opened InstanceIds
  import opened Options

  const SLOTS: nat := 1000
  const DEFAULT_ID := "default"

  function OrDefault(id: string): string {
    if id == "" then DEFAULT_ID else id
  }

  /** The name of a lane of the parent. */
  function BaseCandidate(parent: string, lane: string): string {
    Truncate(OrDefault(Sanitize(parent, ID_SIZE)) + "-child-" + lane, ID_SIZE - 1)
  }

  /** The name for a slot; the base itself is slot 1. */
  function Candidate(base: string, slot: nat): (r: string)
    ensures |r| <= |base| || |r| < ID_SIZE
  {
    if slot <= 1 then base else Truncate(base + "-" + Decimal(slot), ID_SIZE - 1)
  }

  lemma {:induction false} DecimalIsAllowed(n: nat)
    ensures AllAllowed(Decimal(n))
  {
    if n >= 10 {
      DecimalIsAllowed(n / 10);
    }
  }

  /** Every candidate is a clean name that fits, so the final cleaning of the
      chosen one changes nothing. */
  lemma CandidatesAreClean(parent: string, lane: string, slot: nat)
    requires AllAllowed(lane)
    ensures var id := Candidate(BaseCandidate(parent, lane), slot);
            id != "" && Sanitize(id, ID_SIZE) == id
  {
    var base := BaseCandidate(parent, lane);
    BaseIsClean(parent, lane);
    DecimalIsAllowed(slot);
    JoinAllowed(base, "-", Decimal(slot));
    KeptIsAllowed(Candidate(base, slot));
  }

  lemma JoinAllowed(a: string, m: string, b: string)
    requires AllAllowed(a) && AllAllowed(m) && AllAllowed(b)
    ensures AllAllowed(a + m + b)
  {
  }

  lemma BaseIsClean(parent: string, lane: string)
    requires AllAllowed(lane)
    ensures var base := BaseCandidate(parent, lane); base != "" && AllAllowed(base) && |base| < ID_SIZE
  {
    SanitizeIsIdempotent(parent, ID_SIZE);
    var id := OrDefault(Sanitize(parent, ID_SIZE));
    assert AllAllowed(DEFAULT_ID) && AllAllowed("-child-");
    JoinAllowed(id, "-child-", lane);
    TruncateAllowed(id + "-child-" + lane, ID_SIZE - 1);
  }

  lemma TruncateAllowed(s: string, n: nat)
    requires AllAllowed(s)
    ensures AllAllowed(Truncate(s, n))
  {
  }

  /** A child is named after its parent and its lane, and its further slots after
      the child; only what does not fit into 63 characters is cut off. */
  lemma NamesAre(parent: string, lane: string, slot: nat)
    requires AllAllowed(parent) && |parent| < ID_SIZE
    ensures var child := (if parent == "" then DEFAULT_ID else parent) + "-child-" + lane;
            && BaseCandidate(parent, lane) <= child
            && (|child| < ID_SIZE ==> BaseCandidate(parent, lane) == child)
            && (|child| >= ID_SIZE ==> |BaseCandidate(parent, lane)| == ID_SIZE - 1)
    ensures var (base, id) := (BaseCandidate(parent, lane), Candidate(BaseCandidate(parent, lane), slot));
            && (slot <= 1 ==> id == base)
            && (slot >= 2 ==>
                  && id <= base + "-" + Decimal(slot)
                  && |id| == if |base + "-" + Decimal(slot)| < ID_SIZE then |base + "-" + Decimal(slot)| else ID_SIZE - 1)
  {
    KeptIsAllowed(parent);
  }

  /** Different slots of a base that leaves room for the number have different
      names, none of them the base's. */
  lemma ShortBasesTellSlots(base: string, i: nat, j: nat)
    requires i != j && 1 <= i && 1 <= j
    requires |base + "-" + Decimal(i)| < ID_SIZE && |base + "-" + Decimal(j)| < ID_SIZE
    ensures Candidate(base, i) != Candidate(base, j)
  {
    var n := |base| + 1;
    assert (base + "-" + Decimal(i))[n..] == Decimal(i) && (base + "-" + Decimal(j))[n..] == Decimal(j);
    if Decimal(i) == Decimal(j) {
      DecimalInjective(i, j);
    }
  }

  lemma SlotDigits(slot: nat)
    requires slot < SLOTS
    ensures |Decimal(slot)| <= 3
  {
    assert slot / 10 < 100 && slot / 10 / 10 < 10;
  }

  /** From 60 characters on, truncation makes slots 10 and 100 one name. */
  lemma LongBasesDoNot(base: string)
    requires |base| >= 60
    ensures Candidate(base, 10) == Candidate(base, 100)
  {
    assert Decimal(1) == "1" && Decimal(10) == "10" && Decimal(100) == "100";
    var ten, hundred := base + "-" + "10", base + "-" + "100";
    assert hundred == ten + "0";
    assert |base| + 3 >= ID_SIZE - 1;
    assert hundred[..ID_SIZE - 1] == ten[..ID_SIZE - 1];
  }

  /** All 999 names differ exactly when the base has at most 59 characters. */
  lemma SlotsDifferIff(base: string)
    ensures (forall i: nat, j: nat :: 1 <= i < j < SLOTS ==> Candidate(base, i) != Candidate(base, j)) <==> |base| <= 59
  {
    if |base| <= 59 {
      forall i: nat, j: nat | 1 <= i < j < SLOTS ensures Candidate(base, i) != Candidate(base, j) {
        SlotDigits(i);
        SlotDigits(j);
        ShortBasesTellSlots(base, i, j);
      }
    } else {
      LongBasesDoNot(base);
    }
  }

  /** The base name `n` instances deep, each started in the lane "shell". */
  function Nested(n: nat): string {
    if n == 0 then DEFAULT_ID else BaseCandidate(Nested(n - 1), "shell")
  }

  lemma BaseLength(parent: string, lane: string)
    requires parent != "" && AllAllowed(parent) && |parent| < ID_SIZE
    ensures |BaseCandidate(parent, lane)| ==
            if |parent| + 7 + |lane| < ID_SIZE then |parent| + 7 + |lane| else ID_SIZE - 1
  {
    KeptIsAllowed(parent);
    assert |"-child-"| == 7;
    assert OrDefault(Sanitize(parent, ID_SIZE)) == parent;
  }

  lemma {:induction false} NestedLength(n: nat)
    ensures Nested(n) != "" && AllAllowed(Nested(n))
    ensures |Nested(n)| == if n <= 4 then 7 + 12 * n else ID_SIZE - 1
  {
    if n == 0 {
      assert AllAllowed(DEFAULT_ID) && |DEFAULT_ID| == 7;
    } else {
      NestedLength(n - 1);
      BelowParent(Nested(n - 1));
    }
  }

  lemma BelowParent(parent: string)
    requires parent != "" && AllAllowed(parent) && |parent| < ID_SIZE
    ensures var base := BaseCandidate(parent, "shell");
            && base != "" && AllAllowed(base)
            && |base| == if |parent| + 12 < ID_SIZE then |parent| + 12 else ID_SIZE - 1
  {
    assert AllAllowed("shell") && |"shell"| == 5;
    BaseIsClean(parent, "shell");
    BaseLength(parent, "shell");
  }

  /** So the fifth instance inside another is the first to lose names: below
      it, slots 10 and 100 are one. */
  lemma NestingReachesLongBases(n: nat)
    ensures (forall i: nat, j: nat :: 1 <= i < j < SLOTS ==> Candidate(Nested(n), i) != Candidate(Nested(n), j)) <==> n <= 4
    ensures n == 5 ==> Candidate(Nested(n), 10) == Candidate(Nested(n), 100)
  {
    NestedLength(n);
    SlotsDifferIff(Nested(n));
    if n == 5 {
      LongBasesDoNot(Nested(n));
    }
  }

  predicate Reusable(id: string, live: string -> bool, saved: string -> bool) {
    !live(id) && saved(id)
  }

  /** Slot `k` is the first with a property among those that can be chosen. */
  ghost predicate FirstSlot(base: string, has: string -> bool, k: nat) {
    && 1 <= k < SLOTS && has(Candidate(base, k))
    && forall j :: 1 <= j < k ==> !has(Candidate(base, j))
  }

  ghost predicate NoSlot(base: string, has: string -> bool) {
    forall j :: 1 <= j < SLOTS ==> !has(Candidate(base, j))
  }

  ghost function ReusableBy(live: string -> bool, saved: string -> bool): string -> bool {
    id => Reusable(id, live, saved)
  }

  ghost function OfflineBy(live: string -> bool): string -> bool {
    id => !live(id)
  }

  /** The first slot whose session was saved and which is offline, the base
      first; if there is none, the first slot that is offline; if there is none,
      the base. */
  ghost predicate Chosen(base: string, live: string -> bool, saved: string -> bool, slot: nat) {
    var reusable, offline := ReusableBy(live, saved), OfflineBy(live);
    if !NoSlot(base, reusable) then FirstSlot(base, reusable, slot)
    else if !NoSlot(base, offline) then FirstSlot(base, offline, slot)
    else slot == 1
  }

  method Allocate(base: string, live: string -> bool, saved: string -> bool) returns (id: string, ghost slot: nat)
    ensures 1 <= slot < SLOTS && id == Candidate(base, slot)
    ensures Chosen(base, live, saved, slot)
  {
    var baseLive, baseSaved := live(base), saved(base);
    ghost var reusable, offline := ReusableBy(live, saved), OfflineBy(live);
    if !baseLive && baseSaved {
      assert reusable(Candidate(base, 1)) && offline(Candidate(base, 1));
      return base, 1;
    }
    var firstFree := None;
    ghost var freeSlot := 0;
    for k := 2 to SLOTS
      invariant forall j :: 1 <= j < k ==> !reusable(Candidate(base, j))
      invariant firstFree.None? ==> forall j :: 2 <= j < k ==> !offline(Candidate(base, j))
      invariant firstFree.Some? ==>
                  && 2 <= freeSlot < k && firstFree.value == Candidate(base, freeSlot) && offline(Candidate(base, freeSlot))
                  && forall j :: 2 <= j < freeSlot ==> !offline(Candidate(base, j))
    {
      var candidate := Candidate(base, k);
      if !live(candidate) {
        if saved(candidate) {
          assert reusable(candidate);
          return candidate, k;
        }
        if firstFree.None? {
          firstFree := Some(candidate);
          freeSlot := k;
        }
      }
    }
    if !baseLive && !baseSaved {
      assert offline(Candidate(base, 1));
      return base, 1;
    }
    assert !offline(Candidate(base, 1));
    if firstFree.Some? {
      return firstFree.value, freeSlot;
    }
    return base, 1;
  }

  /** A live name is chosen only when the base and all slots are live. */
  lemma LiveOnlyIfAllLive(base: string, live: string -> bool, saved: string -> bool, slot: nat)
    requires 1 <= slot < SLOTS && Chosen(base, live, saved, slot)
    ensures live(Candidate(base, slot)) ==> forall j :: 1 <= j < SLOTS ==> live(Candidate(base, j))
  {
    if !NoSlot(base, ReusableBy(live, saved)) {
      assert ReusableBy(live, saved)(Candidate(base, slot));
    } else if !NoSlot(base, OfflineBy(live)) {
      assert OfflineBy(live)(Candidate(base, slot));
    } else {
      forall j | 1 <= j < SLOTS ensures live(Candidate(base, j)) {
        assert !OfflineBy(live)(Candidate(base, j));
      }
    }
  }

  /** assign_nested_child_instance_id. */
  method AssignNestedChild(parent: string, lane: string, explicitSlot: bool, live: string -> bool, saved: string -> bool)
    returns (id: string, ghost slot: nat)
    requires AllAllowed(lane)
    ensures 1 <= slot < SLOTS && id == Candidate(BaseCandidate(parent, lane), slot)
    ensures explicitSlot ==> slot == 1
    ensures !explicitSlot ==> Chosen(BaseCandidate(parent, lane), live, saved, slot)
    ensures !explicitSlot && live(id) ==>
              forall j :: 1 <= j < SLOTS ==> live(Candidate(BaseCandidate(parent, lane), j))
    ensures id != "" && AllAllowed(id) && |id| < ID_SIZE
  {
    var base := BaseCandidate(parent, lane);
    CandidatesAreClean(parent, lane, 1);
    id, slot := base, 1;
    if !explicitSlot {
      id, slot := Allocate(base, live, saved);
      CandidatesAreClean(parent, lane, slot);
      LiveOnlyIfAllLive(base, live, saved, slot);
    }
    SanitizeIsIdempotent(id, ID_SIZE);
    id := OrDefault(Sanitize(id, ID_SIZE));
  }
}
