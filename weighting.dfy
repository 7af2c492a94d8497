/** getNextOwnerInGroup: the weighted round-robin pick. Each member's
    deficit is its weighted share of the next assignment count minus the
    contacts it already owns; the first member with the largest deficit is
    chosen. */
module Weighting {
  import opened Options
  import opened Seqs
  import opened Conditions

  /** A group member: a sales rep and its weight. */
  datatype Member = Member(repId: string, weight: int)

  /** A JavaScript number as the deficit computation can produce it: a
      finite value (taken exactly), an infinity from dividing by a zero total
      weight, or NaN from 0 / 0. */
  datatype Score = NegInf | Fin(value: real) | PosInf | NaN

  /** The > comparison on numbers: false whenever NaN is involved. */
  predicate Greater(a: Score, b: Score) {
    if a.NaN? || b.NaN? then false
    else if a.PosInf? then !b.PosInf?
    else if a.NegInf? then false
    else b.NegInf? || (b.Fin? && a.value > b.value)
  }

  /** Apart from NaN, Greater is a strict total order. */
  lemma GreaterIsStrictOrder(a: Score, b: Score, c: Score)
    ensures !Greater(a, a)
    ensures Greater(a, b) && Greater(b, c) ==> Greater(a, c)
    ensures !a.NaN? && !b.NaN? && a != b ==> Greater(a, b) || Greater(b, a)
  {
  }

  /** A score that can replace the initial maxDeficit of -Infinity. */
  predicate Selectable(s: Score) {
    Greater(s, NegInf)
  }

  /** i holds the largest score, and every selectable score before i is
      strictly smaller: the member a left-to-right scan with a strict > keeps. */
  predicate IsPick(ds: seq<Score>, i: int) {
    && 0 <= i < |ds| && Selectable(ds[i])
    && (forall j :: 0 <= j < |ds| ==> !Greater(ds[j], ds[i]))
    && (forall j :: 0 <= j < i && Selectable(ds[j]) ==> Greater(ds[i], ds[j]))
  }

  /** At most one index is the pick. */
  lemma PickUnique(ds: seq<Score>, i: int, j: int)
    requires IsPick(ds, i) && IsPick(ds, j)
    ensures i == j
  {
  }

  /** The scan of the selection loop, from -Infinity and no member: the pick,
      or none when no score beats -Infinity. */
  function Best(ds: seq<Score>): (b: Option<nat>)
    ensures b.Some? ==> IsPick(ds, b.value)
    ensures b.None? <==> forall j :: 0 <= j < |ds| ==> !Selectable(ds[j])
    decreases |ds|
  {
    if |ds| == 0 then None
    else
      var n := |ds| - 1;
      var prev := Best(ds[..n]);
      assert forall j :: 0 <= j < n ==> ds[..n][j] == ds[j];
      var top := if prev.Some? then ds[prev.value] else NegInf;
      if Greater(ds[n], top) then Some(n) else prev
  }

  /** this.contacts.filter(c => c.owner === repId).length */
  function OwnedCount(contacts: seq<Contact>, repId: string): (n: nat)
    ensures n <= |contacts|
  {
    if |contacts| == 0 then 0
    else
      var last := contacts[|contacts| - 1];
      OwnedCount(contacts[..|contacts| - 1], repId) + (if last.owner == Some(repId) then 1 else 0)
  }

  /** The number of contacts whose owner is one of ids. */
  function OwnedByAny(contacts: seq<Contact>, ids: set<string>): (n: nat)
    ensures n <= |contacts|
  {
    if |contacts| == 0 then 0
    else
      var last := contacts[|contacts| - 1];
      OwnedByAny(contacts[..|contacts| - 1], ids) + (if last.owner.Some? && last.owner.value in ids then 1 else 0)
  }

  /** Owners of a further rep add that rep's own count. */
  lemma {:induction false} OwnedSplit(contacts: seq<Contact>, ids: set<string>, repId: string)
    requires repId !in ids
    ensures OwnedByAny(contacts, ids + {repId}) == OwnedByAny(contacts, ids) + OwnedCount(contacts, repId)
  {
    if |contacts| > 0 {
      OwnedSplit(contacts[..|contacts| - 1], ids, repId);
    }
  }

  /** group.members.reduce((sum, m) => sum + m.weight, 0) */
  function TotalWeight(ms: seq<Member>): int {
    if |ms| == 0 then 0 else TotalWeight(ms[..|ms| - 1]) + ms[|ms| - 1].weight
  }

  /** The rep ids of the members. */
  function RepIds(ms: seq<Member>): set<string> {
    set i | 0 <= i < |ms| :: ms[i].repId
  }

  /** The keys of assignmentCounts in insertion order: each rep id once, in
      the order of its first occurrence among the members. */
  function FirstOccurrences(ms: seq<Member>): (keys: seq<string>)
    ensures Distinct(keys)
    ensures forall k :: k in keys <==> k in RepIds(ms)
  {
    if |ms| == 0 then []
    else
      var n := |ms| - 1;
      var init := FirstOccurrences(ms[..n]);
      assert forall k :: k in RepIds(ms) <==> k in RepIds(ms[..n]) || k == ms[n].repId by {
        forall k | k in RepIds(ms)
          ensures k in RepIds(ms[..n]) || k == ms[n].repId
        {
          var i :| 0 <= i < |ms| && ms[i].repId == k;
          if i < n {
            assert ms[..n][i] == ms[i];
          }
        }
        forall k | k in RepIds(ms[..n])
          ensures k in RepIds(ms)
        {
          var i :| 0 <= i < n && ms[..n][i].repId == k;
          assert ms[i] == ms[..n][i];
        }
      }
      if ms[n].repId in init then init else init + [ms[n].repId]
  }

  /** FirstOccurrences of one more member. */
  lemma FirstOccurrencesStep(ms: seq<Member>, i: nat)
    requires i < |ms|
    ensures FirstOccurrences(ms[..i + 1]) == if ms[i].repId in FirstOccurrences(ms[..i])
      then FirstOccurrences(ms[..i]) else FirstOccurrences(ms[..i]) + [ms[i].repId]
  {
    assert ms[..i + 1][..i] == ms[..i];
  }

  /** The sum of the counts of the given reps, from the left. */
  function SumOwned(contacts: seq<Contact>, keys: seq<string>): nat {
    if |keys| == 0 then 0 else SumOwned(contacts, keys[..|keys| - 1]) + OwnedCount(contacts, keys[|keys| - 1])
  }

  /** Object.values(assignmentCounts).reduce((sum, count) => sum + count, 0):
      a rep listed twice in the group is counted once. */
  function TotalAssigned(contacts: seq<Contact>, ms: seq<Member>): nat {
    SumOwned(contacts, FirstOccurrences(ms))
  }

  /** Summing the counts of distinct reps counts the contacts owned by any
      of them. */
  lemma {:induction false} SumOwnedDistinct(contacts: seq<Contact>, keys: seq<string>)
    requires Distinct(keys)
    ensures SumOwned(contacts, keys) == OwnedByAny(contacts, set k | k in keys)
  {
    if |keys| == 0 {
      assert (set k | k in keys) == {};
      OwnedNone(contacts);
    } else {
      var n := |keys| - 1;
      var init := keys[..n];
      assert Distinct(init);
      SumOwnedDistinct(contacts, init);
      assert keys[n] !in init;
      assert (set k | k in keys) == (set k | k in init) + {keys[n]} by {
        assert keys == init + [keys[n]];
      }
      OwnedSplit(contacts, (set k | k in init), keys[n]);
    }
  }

  /** No contact has its owner in the empty set. */
  lemma {:induction false} OwnedNone(contacts: seq<Contact>)
    ensures OwnedByAny(contacts, {}) == 0
  {
    if |contacts| > 0 {
      OwnedNone(contacts[..|contacts| - 1]);
    }
  }

  /** totalAssigned is the number of contacts owned by some member of the
      group, so it never exceeds the number of contacts. */
  lemma TotalAssignedCountsOwners(contacts: seq<Contact>, ms: seq<Member>)
    ensures TotalAssigned(contacts, ms) == OwnedByAny(contacts, RepIds(ms))
    ensures TotalAssigned(contacts, ms) <= |contacts|
  {
    var keys := FirstOccurrences(ms);
    SumOwnedDistinct(contacts, keys);
    assert (set k | k in keys) == RepIds(ms);
  }

  /** deficit = (totalAssigned + 1) * (weight / totalWeight) - currentCount */
  function Deficit(totalAssigned: nat, weight: int, totalWeight: int, count: nat): Score {
    if totalWeight != 0 then
      Fin((totalAssigned + 1) as real * (weight as real / totalWeight as real) - count as real)
    else if weight > 0 then PosInf
    else if weight < 0 then NegInf
    else NaN
  }

  /** The deficit of every member, in member order. */
  function Deficits(contacts: seq<Contact>, ms: seq<Member>): (ds: seq<Score>)
    ensures |ds| == |ms|
  {
    var total, weight := TotalAssigned(contacts, ms), TotalWeight(ms);
    seq(|ms|, i requires 0 <= i < |ms| => Deficit(total, ms[i].weight, weight, OwnedCount(contacts, ms[i].repId)))
  }

  /** The rep getNextOwnerInGroup returns, or null. */
  function NextOwner(contacts: seq<Contact>, ms: seq<Member>): Option<string> {
    if |ms| == 0 then None
    else match Best(Deficits(contacts, ms))
      case Some(i) => Some(ms[i].repId)
      case None => None
  }

  /** No members means no owner; an owner is always one of the members; and
      with a non-zero total weight there always is one. */
  lemma NextOwnerIsMember(contacts: seq<Contact>, ms: seq<Member>)
    ensures |ms| == 0 ==> NextOwner(contacts, ms).None?
    ensures NextOwner(contacts, ms).Some? ==> exists i :: 0 <= i < |ms| && ms[i].repId == NextOwner(contacts, ms).value
    ensures |ms| > 0 && TotalWeight(ms) != 0 ==> NextOwner(contacts, ms).Some?
  {
    if |ms| > 0 && TotalWeight(ms) != 0 {
      var ds := Deficits(contacts, ms);
      assert Selectable(ds[0]);
    }
  }

  /** With a non-zero total weight every deficit is finite, and the chosen
      member's is the largest, strictly larger than those before it. */
  lemma PickMaximisesDeficit(contacts: seq<Contact>, ms: seq<Member>)
    requires |ms| > 0 && TotalWeight(ms) != 0
    ensures var ds := Deficits(contacts, ms);
      && (forall j :: 0 <= j < |ds| ==> ds[j].Fin?)
      && Best(ds).Some?
      && (forall j :: 0 <= j < |ds| ==> ds[j].value <= ds[Best(ds).value].value)
      && (forall j :: 0 <= j < Best(ds).value ==> ds[j].value < ds[Best(ds).value].value)
  {
    var ds := Deficits(contacts, ms);
    assert Selectable(ds[0]);
  }

  /** For a positive total weight, comparing deficits is comparing the
      integers (totalAssigned + 1) * weight - count * totalWeight. */
  lemma DeficitCrossMultiplied(total: nat, wi: int, ci: nat, wj: int, cj: nat, totalWeight: int)
    requires totalWeight > 0
    ensures Greater(Deficit(total, wi, totalWeight, ci), Deficit(total, wj, totalWeight, cj))
        <==> (total + 1) * wi - ci * totalWeight > (total + 1) * wj - cj * totalWeight
  {
    var t, W := (total + 1) as real, totalWeight as real;
    var di := t * (wi as real / W) - ci as real;
    var dj := t * (wj as real / W) - cj as real;
    ScaledDeficit(t, wi as real, W, ci as real);
    ScaledDeficit(t, wj as real, W, cj as real);
    CastProduct(total, wi, ci, totalWeight);
    CastProduct(total, wj, cj, totalWeight);
    PositiveScalingKeepsOrder(di, dj, W);
  }

  /** Multiplying by a positive number keeps the order. */
  lemma PositiveScalingKeepsOrder(x: real, y: real, k: real)
    requires k > 0.0
    ensures x > y <==> x * k > y * k
  {
    if x > y {
      assert (x - y) * k > 0.0;
    } else {
      assert (y - x) * k >= 0.0;
    }
  }

  /** A deficit times the total weight clears the division. */
  lemma ScaledDeficit(t: real, w: real, W: real, c: real)
    requires W != 0.0
    ensures (t * (w / W) - c) * W == t * w - c * W
  {
    assert (w / W) * W == w;
  }

  /** The cross-multiplied integer, as a real. */
  lemma CastProduct(total: nat, w: int, c: nat, totalWeight: int)
    ensures ((total + 1) * w - c * totalWeight) as real == (total + 1) as real * w as real - c as real * totalWeight as real
  {
  }

  /** A uniform weight w sums to |ms| * w. */
  lemma {:induction false} TotalWeightUniform(ms: seq<Member>, w: int)
    requires forall j :: 0 <= j < |ms| ==> ms[j].weight == w
    ensures TotalWeight(ms) == |ms| * w
  {
    if |ms| > 0 {
      TotalWeightUniform(ms[..|ms| - 1], w);
    }
  }

  /** With equal non-zero weights the pick is the member owning the fewest
      contacts, the earliest one among several. */
  lemma EqualWeightsFewestOwned(contacts: seq<Contact>, ms: seq<Member>, w: int, i: nat)
    requires w != 0 && forall j :: 0 <= j < |ms| ==> ms[j].weight == w
    requires i < |ms|
    requires forall j :: 0 <= j < |ms| ==> OwnedCount(contacts, ms[i].repId) <= OwnedCount(contacts, ms[j].repId)
    requires forall j :: 0 <= j < i ==> OwnedCount(contacts, ms[j].repId) > OwnedCount(contacts, ms[i].repId)
    ensures NextOwner(contacts, ms) == Some(ms[i].repId)
  {
    TotalWeightUniform(ms, w);
    NonZeroProduct(|ms|, w);
    var ds := Deficits(contacts, ms);
    var t, W, ci := TotalAssigned(contacts, ms), TotalWeight(ms), OwnedCount(contacts, ms[i].repId);
    forall j | 0 <= j < |ms|
      ensures Selectable(ds[j])
      ensures Greater(ds[j], ds[i]) <==> OwnedCount(contacts, ms[j].repId) < ci
      ensures Greater(ds[i], ds[j]) <==> ci < OwnedCount(contacts, ms[j].repId)
    {
      var cj := OwnedCount(contacts, ms[j].repId);
      assert ds[j] == Deficit(t, w, W, cj) && ds[i] == Deficit(t, w, W, ci);
      DeficitByCount(t, w, W, cj, ci);
      DeficitByCount(t, w, W, ci, cj);
    }
    assert IsPick(ds, i);
    PickUnique(ds, i, Best(ds).value);
  }

  /** Under one weight, a larger deficit means fewer owned contacts. */
  lemma DeficitByCount(total: nat, w: int, totalWeight: int, a: nat, b: nat)
    requires totalWeight != 0
    ensures Selectable(Deficit(total, w, totalWeight, a))
    ensures Greater(Deficit(total, w, totalWeight, a), Deficit(total, w, totalWeight, b)) <==> a < b
  {
  }

  lemma NonZeroProduct(n: nat, w: int)
    requires n > 0 && w != 0
    ensures n * w != 0
  {
  }

  /** A member with a positive weight. */
  predicate PositiveWeight(m: Member) {
    m.weight > 0
  }

  /** A zero total weight makes every deficit infinite or NaN: the first
      member with a positive weight is picked, and nobody when there is
      none. */
  lemma ZeroTotalWeight(contacts: seq<Contact>, ms: seq<Member>)
    requires TotalWeight(ms) == 0
    ensures NextOwner(contacts, ms) == match FindFirst(ms, PositiveWeight)
      case Some(i) => Some(ms[i].repId)
      case None => None
  {
    var ds := Deficits(contacts, ms);
    match FindFirst(ms, PositiveWeight)
    case Some(i) =>
      assert IsPick(ds, i);
      PickUnique(ds, i, Best(ds).value);
    case None =>
      assert forall j :: 0 <= j < |ms| ==> !Selectable(ds[j]);
  }

  /** The first forEach: assignmentCounts maps each member's rep id to the
      number of contacts it owns; keys lists the object's keys in insertion
      order. */
  method CountAssignments(contacts: seq<Contact>, ms: seq<Member>) returns (counts: map<string, nat>, keys: seq<string>)
    ensures keys == FirstOccurrences(ms)
    ensures forall k :: k in counts <==> k in keys
    ensures forall k :: k in counts ==> counts[k] == OwnedCount(contacts, k)
  {
    counts, keys := map[], [];
    for i := 0 to |ms|
      invariant keys == FirstOccurrences(ms[..i])
      invariant forall k :: k in counts <==> k in keys
      invariant forall k :: k in counts ==> counts[k] == OwnedCount(contacts, k)
    {
      FirstOccurrencesStep(ms, i);
      var repId := ms[i].repId;
      if repId !in counts {
        keys := keys + [repId];
      }
      counts := counts[repId := OwnedCount(contacts, repId)];
    }
    assert ms[..|ms|] == ms;
  }

  /** totalWeight, summed from the left. */
  method SumWeights(ms: seq<Member>) returns (total: int)
    ensures total == TotalWeight(ms)
  {
    total := 0;
    for i := 0 to |ms|
      invariant total == TotalWeight(ms[..i])
    {
      assert ms[..i + 1][..i] == ms[..i];
      total := total + ms[i].weight;
    }
    assert ms[..|ms|] == ms;
  }

  /** totalAssigned: the counts of assignmentCounts summed in key order. */
  method SumCounts(contacts: seq<Contact>, counts: map<string, nat>, keys: seq<string>) returns (total: nat)
    requires forall k :: k in keys ==> k in counts && counts[k] == OwnedCount(contacts, k)
    ensures total == SumOwned(contacts, keys)
  {
    total := 0;
    for i := 0 to |keys|
      invariant total == SumOwned(contacts, keys[..i])
    {
      assert keys[..i + 1][..i] == keys[..i];
      total := total + counts[keys[i]];
    }
    assert keys[..|keys|] == keys;
  }

  /** The second forEach: keep the member whose deficit is greater than the
      largest seen so far, starting from -Infinity. */
  method SelectMember(contacts: seq<Contact>, ms: seq<Member>, counts: map<string, nat>, totalAssigned: nat, totalWeight: int)
    returns (selected: Option<nat>)
    requires forall i :: 0 <= i < |ms| ==> ms[i].repId in counts && counts[ms[i].repId] == OwnedCount(contacts, ms[i].repId)
    requires totalAssigned == TotalAssigned(contacts, ms) && totalWeight == TotalWeight(ms)
    ensures selected == Best(Deficits(contacts, ms))
  {
    ghost var ds := Deficits(contacts, ms);
    selected := None;
    var maxDeficit := NegInf;
    for i := 0 to |ms|
      invariant selected == Best(ds[..i])
      invariant selected.Some? ==> selected.value < i && maxDeficit == ds[selected.value]
      invariant selected.None? ==> maxDeficit == NegInf
    {
      assert ds[..i + 1][..i] == ds[..i];
      var currentCount := counts[ms[i].repId];
      var deficit := Deficit(totalAssigned, ms[i].weight, totalWeight, currentCount);
      assert deficit == ds[i];
      if Greater(deficit, maxDeficit) {
        maxDeficit := deficit;
        selected := Some(i);
      }
    }
    assert ds[..|ms|] == ds;
  }
}
