/** When the order of a ledger can be seen in the answer of the linker of src/artifact_fixups.rs: exactly. */
module ArtifactOrder {
  import opened LittleEndian
  import opened Wrappers
  import opened Sorting
  import opened ArtifactFixups
  import opened ArtifactLinking

  // ---------------------------------------------------------------- the lowest shared offset

  /** The first place from k on whose successor has the same offset, or the end. */
  function SharedFrom(ordered: seq<Fixup>, k: nat): (r: nat)
    requires k <= |ordered|
    ensures k <= r <= |ordered|
    ensures r < |ordered| ==> r + 1 < |ordered| && ordered[r].offset == ordered[r + 1].offset
    ensures forall i, j | k <= i < r && j == i + 1 && j < |ordered| :: ordered[i].offset != ordered[j].offset
    decreases |ordered| - k
  {
    if k + 1 >= |ordered| then |ordered|
    else if ordered[k].offset == ordered[k + 1].offset then k
    else SharedFrom(ordered, k + 1)
  }

  function FirstShared(ordered: seq<Fixup>): nat {
    SharedFrom(ordered, 0)
  }

  /** The fields from k on that share the offset of field k. */
  function GroupFrom(ordered: seq<Fixup>, k: nat, end: nat): (r: nat)
    requires k < end <= |ordered|
    ensures end <= r <= |ordered|
    ensures forall i | end <= i < r :: ordered[i].offset == ordered[k].offset
    ensures r < |ordered| ==> ordered[r].offset != ordered[k].offset
    decreases |ordered| - end
  {
    if end < |ordered| && ordered[end].offset == ordered[k].offset then GroupFrom(ordered, k, end + 1) else end
  }

  function Group(ordered: seq<Fixup>, k: nat): seq<Fixup>
    requires k < |ordered|
  {
    ordered[k..GroupFrom(ordered, k, k + 1)]
  }

  function Before(ordered: seq<Fixup>, k: nat): Option<Fixup>
    requires k <= |ordered|
  {
    if k == 0 then None else Some(ordered[k - 1])
  }

  /** What linking answers when these two fields come first at one offset. */
  function Outcome(l: Linkage, previous: Option<Fixup>, first: Fixup, second: Fixup): Result<seq<byte>, Error>
    requires |l.template| == l.current.len
  {
    var checked := FieldChecked(l, first, previous);
    if checked.Err? then checked else FieldChecked(l, second, Some(first))
  }

  /** Any two of the fields, in either order, give one answer. */
  ghost predicate PairsAgree(l: Linkage, previous: Option<Fixup>, group: seq<Fixup>)
    requires |l.template| == l.current.len && |group| >= 2
  {
    forall i, j | 0 <= i < |group| && 0 <= j < |group| && i != j ::
      Outcome(l, previous, group[i], group[j]) == Outcome(l, previous, group[0], group[1])
  }

  /** No offset is shared, or the fields below the lowest shared one already refuse, or its fields agree pairwise. */
  ghost predicate OneAnswer(l: Linkage, ordered: seq<Fixup>)
    requires |l.template| == l.current.len
  {
    var k := FirstShared(ordered);
    k < |ordered| && LedgerLinked(l, ordered[..k]).Ok? ==>
      |Group(ordered, k)| >= 2 && PairsAgree(l, Before(ordered, k), Group(ordered, k))
  }

  // ---------------------------------------------------------------- two fields at one offset

  /** The second of two fields at one offset never links after the first. */
  lemma ClashRefuses(l: Linkage, previous: Option<Fixup>, first: Fixup, second: Fixup)
    requires |l.template| == l.current.len && first.offset == second.offset
    ensures Outcome(l, previous, first, second).Err?
  {
    hide FieldBytes;
  }

  /** When the fields below link, the first two fields at the lowest shared offset decide. */
  lemma LedgerClash(l: Linkage, ordered: seq<Fixup>, k: nat)
    requires |l.template| == l.current.len && k + 1 < |ordered| && ordered[k].offset == ordered[k + 1].offset
    requires LedgerLinked(l, ordered[..k]).Ok?
    ensures LedgerLinked(l, ordered) == Outcome(l, Before(ordered, k), ordered[k], ordered[k + 1])
  {
    ClashRefuses(l, Before(ordered, k), ordered[k], ordered[k + 1]);
    hide FieldChecked, LedgerLinked;
    UnfoldLedger(l, ordered, k);
    if FieldChecked(l, ordered[k], Before(ordered, k)).Err? {
      PrefixRefuses(l, ordered, k + 1);
    } else {
      UnfoldLedger(l, ordered, k + 1);
      PrefixRefuses(l, ordered, k + 2);
    }
  }

  // ---------------------------------------------------------------- sorted permutations

  ghost predicate Reordered(left: seq<Fixup>, right: seq<Fixup>) {
    SortedByKey(left, FIELD_KEY) && SortedByKey(right, FIELD_KEY) && multiset(left) == multiset(right)
  }

  lemma SameLength(left: seq<Fixup>, right: seq<Fixup>)
    requires Reordered(left, right)
    ensures |left| == |right|
  {
    assert |left| == |multiset(left)| == |multiset(right)| == |right|;
  }

  lemma SameRest(left: seq<Fixup>, right: seq<Fixup>, m: nat)
    requires multiset(left) == multiset(right) && m <= |left| && m <= |right| && left[..m] == right[..m]
    ensures multiset(left[m..]) == multiset(right[m..])
  {
    assert left == left[..m] + left[m..] && right == right[..m] + right[m..];
    assert multiset(left[m..]) == multiset(left) - multiset(left[..m]);
    assert multiset(right[m..]) == multiset(right) - multiset(right[..m]);
  }

  lemma AllAbove(ordered: seq<Fixup>, m: nat)
    requires SortedByKey(ordered, FIELD_KEY) && m < |ordered| && (m + 1 < |ordered| ==> ordered[m].offset != ordered[m + 1].offset)
    ensures forall x | m < x < |ordered| :: ordered[m].offset < ordered[x].offset
  {
    forall x | m < x < |ordered| ensures ordered[m].offset < ordered[x].offset {
      assert FIELD_KEY(ordered[m]) <= FIELD_KEY(ordered[m + 1]);
      assert m + 1 < x ==> FIELD_KEY(ordered[m + 1]) <= FIELD_KEY(ordered[x]);
    }
  }

  /** A field whose offset no later field shares has one place. */
  lemma SameAt(left: seq<Fixup>, right: seq<Fixup>, m: nat)
    requires Reordered(left, right) && m < |left| == |right| && left[..m] == right[..m]
    requires m + 1 < |left| ==> left[m].offset != left[m + 1].offset
    ensures left[m] == right[m]
  {
    SameRest(left, right, m);
    AllAbove(left, m);
    assert left[m] == left[m..][0] && left[m] in multiset(right[m..]);
    assert right[m] == right[m..][0] && right[m] in multiset(left[m..]);
    var q :| 0 <= q < |right[m..]| && right[m..][q] == left[m];
    var p :| 0 <= p < |left[m..]| && left[m..][p] == right[m];
    assert right[m + q] == left[m] && left[m + p] == right[m];
    assert q > 0 ==> FIELD_KEY(right[m]) <= FIELD_KEY(right[m + q]);
  }

  lemma {:induction false} SameBelow(left: seq<Fixup>, right: seq<Fixup>, m: nat)
    requires Reordered(left, right) && |left| == |right| && m <= FirstShared(left)
    ensures left[..m] == right[..m]
  {
    if m > 0 {
      SameBelow(left, right, m - 1);
      SameAt(left, right, m - 1);
      assert left[..m] == left[..m - 1] + [left[m - 1]] && right[..m] == right[..m - 1] + [right[m - 1]];
    }
  }

  /** In a sorted ledger nothing after the group has the group's offset. */
  lemma InGroup(ordered: seq<Fixup>, k: nat, i: nat)
    requires SortedByKey(ordered, FIELD_KEY) && k <= i < |ordered| && ordered[i].offset == ordered[k].offset
    ensures i - k < |Group(ordered, k)| && Group(ordered, k)[i - k] == ordered[i]
  {
    GroupIsAll(ordered, k);
  }

  lemma GroupIsAll(ordered: seq<Fixup>, k: nat)
    requires SortedByKey(ordered, FIELD_KEY) && k < |ordered|
    ensures forall x | GroupFrom(ordered, k, k + 1) <= x < |ordered| :: ordered[k].offset < ordered[x].offset
  {
    var end := GroupFrom(ordered, k, k + 1);
    forall x | end <= x < |ordered| ensures ordered[k].offset < ordered[x].offset {
      assert FIELD_KEY(ordered[k]) <= FIELD_KEY(ordered[end]);
      assert end < x ==> FIELD_KEY(ordered[end]) <= FIELD_KEY(ordered[x]);
    }
  }

  lemma SharedGroup(ordered: seq<Fixup>)
    requires FirstShared(ordered) < |ordered|
    ensures var k := FirstShared(ordered);
            && k + 1 < |ordered| && |Group(ordered, k)| >= 2
            && Group(ordered, k)[0] == ordered[k] && Group(ordered, k)[1] == ordered[k + 1]
  {
  }

  ghost predicate PairOf(group: seq<Fixup>, first: Fixup, second: Fixup) {
    exists i, j :: 0 <= i < |group| && 0 <= j < |group| && i != j && group[i] == first && group[j] == second
  }

  /** Whatever the order, the first two fields at the lowest shared offset are two of the group. */
  lemma ClashIsFromGroup(left: seq<Fixup>, right: seq<Fixup>)
    requires Reordered(left, right) && |left| == |right| && FirstShared(left) < |left|
    ensures var k := FirstShared(left);
            && k + 1 < |right| && right[k].offset == right[k + 1].offset
            && PairOf(Group(left, k), right[k], right[k + 1])
  {
    hide Group, SortedByKey, SharedFrom, PairOf;
    var k := FirstShared(left);
    SharedGroup(left);
    SameBelow(left, right, k);
    SameRest(left, right, k);
    LowestAgain(left, right, k);
    var m, n := TwoPlacesFrom(left, right, k);
    InGroup(left, k, m);
    InGroup(left, k, n);
    PairFound(Group(left, k), m - k, n - k);
  }

  lemma PairFound(group: seq<Fixup>, i: nat, j: nat)
    requires i < |group| && j < |group| && i != j
    ensures PairOf(group, group[i], group[j])
  {
  }

  lemma TwoPlacesFrom(left: seq<Fixup>, right: seq<Fixup>, k: nat) returns (m: nat, n: nat)
    requires k + 1 < |right| && k <= |left| && multiset(left[k..]) == multiset(right[k..])
    ensures k <= m < |left| && k <= n < |left| && m != n && left[m] == right[k] && left[n] == right[k + 1]
  {
    PairPermutes(right[k..], left[k..], 0, 1);
    m, n :| 0 <= m < |left[k..]| && 0 <= n < |left[k..]| && m != n
      && left[k..][m] == right[k..][0] && left[k..][n] == right[k..][1];
    m, n := k + m, k + n;
  }

  lemma LowestAgain(left: seq<Fixup>, right: seq<Fixup>, k: nat)
    requires Reordered(left, right) && |left| == |right| && k + 1 < |left| && left[k].offset == left[k + 1].offset
    requires multiset(left[k..]) == multiset(right[k..])
    ensures right[k].offset == left[k].offset && right[k + 1].offset == left[k].offset
  {
    var x, y := TwoPlacesFrom(right, left, k);
    var far := if x > y then x else y;
    assert FIELD_KEY(right[k]) <= FIELD_KEY(right[k + 1]);
    assert k + 1 < far ==> FIELD_KEY(right[k + 1]) <= FIELD_KEY(right[far]);
    assert right[k] == right[k..][0] && right[k] in multiset(left[k..]);
    var p :| 0 <= p < |left[k..]| && left[k..][p] == right[k];
    assert left[k + p] == right[k];
    assert p > 0 ==> FIELD_KEY(left[k]) <= FIELD_KEY(left[k + p]);
  }

  // ---------------------------------------------------------------- every pair happens

  /** The ledger with two fields of its group brought to the front of the group. */
  function Fronted(ordered: seq<Fixup>, k: nat, i: nat, j: nat): (r: seq<Fixup>)
    requires k <= i < |ordered| && k <= j < |ordered| && i != j
    ensures |r| == |ordered| && r[..k] == ordered[..k] && r[k] == ordered[i] && r[k + 1] == ordered[j]
  {
    ordered[..k] + [ordered[i], ordered[j]] + (if i < j then Others(ordered[k..], i - k, j - k) else Others(ordered[k..], j - k, i - k))
  }

  function Others(rest: seq<Fixup>, low: nat, high: nat): (r: seq<Fixup>)
    requires low < high < |rest|
    ensures |r| == |rest| - 2
  {
    RemoveAt(RemoveAt(rest, high), low)
  }

  lemma SortedTail(ordered: seq<Fixup>, k: nat)
    requires SortedByKey(ordered, FIELD_KEY) && k <= |ordered|
    ensures SortedByKey(ordered[k..], FIELD_KEY)
  {
    forall x, y | 0 <= x < y < |ordered[k..]| ensures FIELD_KEY(ordered[k..][x]) <= FIELD_KEY(ordered[k..][y]) {
      assert FIELD_KEY(ordered[k + x]) <= FIELD_KEY(ordered[k + y]);
    }
  }

  lemma FrontedIsReordered(ordered: seq<Fixup>, k: nat, i: nat, j: nat)
    requires SortedByKey(ordered, FIELD_KEY) && k <= i < |ordered| && k <= j < |ordered| && i != j
    requires ordered[i].offset == ordered[k].offset && ordered[j].offset == ordered[k].offset
    ensures Reordered(ordered, Fronted(ordered, k, i, j))
  {
    hide SortedByKey, RemoveAt;
    var low, high := if i < j then i - k else j - k, if i < j then j - k else i - k;
    var rest, pair := ordered[k..], [ordered[i], ordered[j]];
    var others := Others(rest, low, high);
    SortedTail(ordered, k);
    RemovedTwo(rest, low, high, FIELD_KEY);
    SamePair(rest, low, high, ordered[i], ordered[j]);
    FrontedSorted(ordered, k, pair, others);
    SameFields(ordered, k, pair, others);
  }

  lemma SameFields(ordered: seq<Fixup>, k: nat, pair: seq<Fixup>, others: seq<Fixup>)
    requires k <= |ordered| && multiset(ordered[k..]) == multiset(pair) + multiset(others)
    ensures multiset(ordered[..k] + pair + others) == multiset(ordered)
  {
    assert ordered == ordered[..k] + ordered[k..];
  }

  lemma SamePair(rest: seq<Fixup>, low: nat, high: nat, x: Fixup, y: Fixup)
    requires low < |rest| && high < |rest| && ((rest[low] == x && rest[high] == y) || (rest[low] == y && rest[high] == x))
    ensures multiset{rest[low], rest[high]} == multiset([x, y])
  {
    assert multiset([x, y]) == multiset{x, y};
  }

  lemma FrontedSorted(ordered: seq<Fixup>, k: nat, pair: seq<Fixup>, others: seq<Fixup>)
    requires SortedByKey(ordered, FIELD_KEY) && k < |ordered| && |pair| == 2 && SortedByKey(others, FIELD_KEY)
    requires pair[0].offset == ordered[k].offset && pair[1].offset == ordered[k].offset
    requires multiset(ordered[k..]) == multiset(pair) + multiset(others)
    ensures SortedByKey(ordered[..k] + pair + others, FIELD_KEY)
  {
    forall q | 0 <= q < |others| ensures FIELD_KEY(ordered[k]) <= FIELD_KEY(others[q]) {
      assert others[q] in multiset(ordered[k..]);
      var p :| 0 <= p < |ordered[k..]| && ordered[k..][p] == others[q];
      assert others[q] == ordered[k + p];
    }
    var all := ordered[..k] + pair + others;
    forall x, y | 0 <= x < y < |all| ensures FIELD_KEY(all[x]) <= FIELD_KEY(all[y]) {
      assert x < k ==> FIELD_KEY(all[x]) <= FIELD_KEY(ordered[k]);
    }
  }

  // ---------------------------------------------------------------- the exact condition

  /** Sorted permutations of a ledger all give its answer exactly under the condition. */
  lemma ReorderingsAgreeExactly(l: Linkage, ordered: seq<Fixup>)
    requires |l.template| == l.current.len && SortedByKey(ordered, FIELD_KEY)
    ensures (forall other | Reordered(ordered, other) :: LedgerLinked(l, other) == LedgerLinked(l, ordered)) <==> OneAnswer(l, ordered)
  {
    hide LedgerLinked, FieldChecked;
    if OneAnswer(l, ordered) {
      forall other | Reordered(ordered, other) ensures LedgerLinked(l, other) == LedgerLinked(l, ordered) {
        ReorderingAgrees(l, ordered, other);
      }
    } else {
      OrdersDiffer(l, ordered);
    }
  }

  lemma ReorderingAgrees(l: Linkage, ordered: seq<Fixup>, other: seq<Fixup>)
    requires |l.template| == l.current.len && OneAnswer(l, ordered) && Reordered(ordered, other)
    ensures LedgerLinked(l, other) == LedgerLinked(l, ordered)
  {
    hide LedgerLinked, FieldChecked, Outcome, SharedFrom, Reordered;
    SameLength(ordered, other);
    var k := FirstShared(ordered);
    SameBelow(ordered, other, k);
    if k == |ordered| {
      assert ordered[..k] == ordered && other[..k] == other;
    } else if LedgerLinked(l, ordered[..k]).Err? {
      PrefixRefuses(l, ordered, k);
      PrefixRefuses(l, other, k);
    } else {
      ClashIsFromGroup(ordered, other);
      SharedGroup(ordered);
      LedgerClash(l, ordered, k);
      LedgerClash(l, other, k);
      assert Before(other, k) == Before(ordered, k) by {
        assert k > 0 ==> ordered[..k][k - 1] == other[..k][k - 1];
      }
    }
  }

  lemma OrdersDiffer(l: Linkage, ordered: seq<Fixup>)
    requires |l.template| == l.current.len && SortedByKey(ordered, FIELD_KEY) && !OneAnswer(l, ordered)
    ensures exists other :: Reordered(ordered, other) && LedgerLinked(l, other) != LedgerLinked(l, ordered)
  {
    hide LedgerLinked, FieldChecked, Outcome, SharedFrom, Reordered, SortedByKey, Fronted, Group;
    var k := FirstShared(ordered);
    SharedGroup(ordered);
    var group := Group(ordered, k);
    var i, j :| 0 <= i < |group| && 0 <= j < |group| && i != j
      && Outcome(l, Before(ordered, k), group[i], group[j]) != Outcome(l, Before(ordered, k), group[0], group[1]);
    GroupOffsets(ordered, k, i);
    GroupOffsets(ordered, k, j);
    FrontedIsReordered(ordered, k, k + i, k + j);
    var other := Fronted(ordered, k, k + i, k + j);
    LedgerClash(l, ordered, k);
    LedgerClash(l, other, k);
    assert Before(other, k) == Before(ordered, k) by {
      assert k > 0 ==> ordered[..k][k - 1] == other[..k][k - 1];
    }
    assert Reordered(ordered, other) && LedgerLinked(l, other) != LedgerLinked(l, ordered);
  }

  lemma GroupOffsets(ordered: seq<Fixup>, k: nat, i: nat)
    requires k < |ordered| && i < |Group(ordered, k)|
    ensures k + i < |ordered| && ordered[k + i] == Group(ordered, k)[i] && ordered[k + i].offset == ordered[k].offset
  {
  }

  /** Every order of a ledger gets the same answer, image or refusal. */
  ghost predicate OrderFree(
    image: ImageId, template: seq<byte>, fields: seq<Fixup>, placements: seq<ImagePlacement>, fixedDomain: Option<BiasDomain>)
  {
    forall other: seq<Fixup> | multiset(other) == multiset(fields) ::
      Linked(image, template, other, placements, fixedDomain) == Linked(image, template, fields, placements, fixedDomain)
  }

  /** The answer is the same in every order exactly when the fields at the lowest shared offset agree pairwise. */
  lemma OrderFreeExactly(
    image: ImageId, template: seq<byte>, fields: seq<Fixup>, placements: seq<ImagePlacement>, fixedDomain: Option<BiasDomain>)
    ensures var p := Prepare(image, template, placements, fixedDomain);
            OrderFree(image, template, fields, placements, fixedDomain)
            <==> (p.Ok? ==> OneAnswer(p.value, StableSort(fields, FIELD_KEY)))
  {
    hide LedgerLinked, OneAnswer, StableSort, SortedByKey, Prepare;
    var p := Prepare(image, template, placements, fixedDomain);
    if p.Ok? {
      var l, ordered := p.value, StableSort(fields, FIELD_KEY);
      PreparedLength(image, template, placements, fixedDomain);
      StableSortSorts(fields, FIELD_KEY);
      ReorderingsAgreeExactly(l, ordered);
      if OneAnswer(l, ordered) {
        forall other: seq<Fixup> | multiset(other) == multiset(fields)
          ensures Linked(image, template, other, placements, fixedDomain) == Linked(image, template, fields, placements, fixedDomain)
        {
          StableSortSorts(other, FIELD_KEY);
          assert Reordered(ordered, StableSort(other, FIELD_KEY));
        }
      } else {
        var other :| Reordered(ordered, other) && LedgerLinked(l, other) != LedgerLinked(l, ordered);
        SortedStays(other, FIELD_KEY);
        assert Linked(image, template, other, placements, fixedDomain) != Linked(image, template, fields, placements, fixedDomain);
      }
    }
  }

  lemma PreparedLength(image: ImageId, template: seq<byte>, placements: seq<ImagePlacement>, fixedDomain: Option<BiasDomain>)
    requires Prepare(image, template, placements, fixedDomain).Ok?
    ensures var l := Prepare(image, template, placements, fixedDomain).value; |l.template| == l.current.len
  {
  }

  // ---------------------------------------------------------------- the condition field by field

  /** Runs past the image, whatever comes before it. */
  predicate Beyond(l: Linkage, field: Fixup) {
    field.End() > |l.template|
  }

  ghost predicate AllLink(l: Linkage, previous: Option<Fixup>, group: seq<Fixup>)
    requires |l.template| == l.current.len
  {
    forall i | 0 <= i < |group| :: FieldChecked(l, group[i], previous).Ok?
  }

  ghost predicate AllRefuse(l: Linkage, previous: Option<Fixup>, group: seq<Fixup>, error: Error)
    requires |l.template| == l.current.len
  {
    forall i | 0 <= i < |group| :: FieldChecked(l, group[i], previous) == Err(error)
  }

  /** One field links; all others run past the image with one refusal. */
  ghost predicate OneLinks(l: Linkage, previous: Option<Fixup>, group: seq<Fixup>, p: nat, error: Error)
    requires |l.template| == l.current.len
  {
    && p < |group| && FieldChecked(l, group[p], previous).Ok?
    && forall i | 0 <= i < |group| && i != p :: Beyond(l, group[i]) && FieldChecked(l, group[i], previous) == Err(error)
  }

  /** A field after one at its own offset: past the image as before, and overlapping otherwise. */
  lemma SecondAnswer(l: Linkage, previous: Option<Fixup>, first: Fixup, second: Fixup)
    requires |l.template| == l.current.len && first.offset == second.offset && FieldChecked(l, first, previous).Ok?
    ensures Beyond(l, second) ==> FieldChecked(l, second, Some(first)) == FieldChecked(l, second, previous)
    ensures Beyond(l, second) ==> FieldChecked(l, second, previous).Err?
    ensures !Beyond(l, second) ==> FieldChecked(l, second, Some(first)) == Err(OverlappingFields(first.offset, first.offset))
    ensures FieldChecked(l, second, previous) != Err(OverlappingFields(first.offset, first.offset))
  {
    FieldBytesNeverOverlap(l, second);
    hide FieldBytes;
  }

  lemma FieldBytesNeverOverlap(l: Linkage, field: Fixup)
    ensures FieldBytes(l, field).Err? ==> !FieldBytes(l, field).error.OverlappingFields?
  {
    if field.target.Image? {
      LookupRefusal(l.placements, field.target.image);
    }
    hide EncodeSigned, FitsSigned, Placement;
  }

  lemma {:induction false} LookupRefusal(placements: seq<ImagePlacement>, image: ImageId)
    ensures Placement(placements, image).Err? ==> Placement(placements, image).error == UnknownImage(image)
  {
    if placements != [] && placements[0].image != image {
      LookupRefusal(placements[1..], image);
    }
  }

  /** Pairwise agreement means: all link, all refuse alike, or one links and all others run past the image alike. */
  lemma AgreementFieldByField(l: Linkage, previous: Option<Fixup>, group: seq<Fixup>)
    requires |l.template| == l.current.len && |group| >= 2
    requires forall i | 0 <= i < |group| :: group[i].offset == group[0].offset
    ensures PairsAgree(l, previous, group) <==>
              || AllLink(l, previous, group)
              || (exists error :: AllRefuse(l, previous, group, error))
              || (exists p, error :: OneLinks(l, previous, group, p, error))
  {
    hide FieldChecked, Beyond;
    forall i, j | 0 <= i < |group| && 0 <= j < |group| && FieldChecked(l, group[i], previous).Ok?
      ensures && (Beyond(l, group[j]) ==> FieldChecked(l, group[j], Some(group[i])) == FieldChecked(l, group[j], previous))
              && (Beyond(l, group[j]) ==> FieldChecked(l, group[j], previous).Err?)
              && (!Beyond(l, group[j]) ==> FieldChecked(l, group[j], Some(group[i])) == Err(OverlappingFields(group[0].offset, group[0].offset)))
              && FieldChecked(l, group[j], previous) != Err(OverlappingFields(group[0].offset, group[0].offset))
    {
      SecondAnswer(l, previous, group[i], group[j]);
    }
    if PairsAgree(l, previous, group) {
      AgreeingPairs(l, previous, group);
    }
  }

  lemma AgreeingPairs(l: Linkage, previous: Option<Fixup>, group: seq<Fixup>)
    requires |l.template| == l.current.len && |group| >= 2 && PairsAgree(l, previous, group)
    requires forall i | 0 <= i < |group| :: group[i].offset == group[0].offset
    ensures || AllLink(l, previous, group)
            || (exists error :: AllRefuse(l, previous, group, error))
            || (exists p, error :: OneLinks(l, previous, group, p, error))
  {
    hide FieldChecked, Beyond;
    if q :| 0 <= q < |group| && FieldChecked(l, group[q], previous).Err? {
      var error := FieldChecked(l, group[q], previous).error;
      RefusalIsTheAnswer(l, previous, group, q);
      forall i | 0 <= i < |group| && FieldChecked(l, group[i], previous).Err?
        ensures FieldChecked(l, group[i], previous) == Err(error)
      {
        RefusalIsTheAnswer(l, previous, group, i);
      }
      if p :| 0 <= p < |group| && FieldChecked(l, group[p], previous).Ok? {
        forall i | 0 <= i < |group| && i != p ensures Beyond(l, group[i]) && FieldChecked(l, group[i], previous) == Err(error) {
          SecondAnswer(l, previous, group[p], group[i]);
          SecondAnswer(l, previous, group[p], group[q]);
          assert Outcome(l, previous, group[p], group[i]) == FieldChecked(l, group[i], Some(group[p]));
        }
        assert OneLinks(l, previous, group, p, error);
      } else {
        assert AllRefuse(l, previous, group, error);
      }
    }
  }

  lemma RefusalIsTheAnswer(l: Linkage, previous: Option<Fixup>, group: seq<Fixup>, q: nat)
    requires |l.template| == l.current.len && |group| >= 2 && PairsAgree(l, previous, group) && q < |group|
    requires FieldChecked(l, group[q], previous).Err?
    ensures Outcome(l, previous, group[0], group[1]) == FieldChecked(l, group[q], previous)
  {
    hide FieldChecked;
    var other := if q == 0 then 1 else 0;
    assert Outcome(l, previous, group[q], group[other]) == FieldChecked(l, group[q], previous);
  }

  /** How the fields at one offset answer when each is put first: alike, or all but one past the image. */
  ghost predicate Harmonious(l: Linkage, previous: Option<Fixup>, group: seq<Fixup>)
    requires |l.template| == l.current.len
  {
    || AllLink(l, previous, group)
    || (exists error :: AllRefuse(l, previous, group, error))
    || (exists p, error :: OneLinks(l, previous, group, p, error))
  }

  /** The exact condition again, now asking each field at the lowest shared offset alone. */
  lemma OrderFreeFieldByField(
    image: ImageId, template: seq<byte>, fields: seq<Fixup>, placements: seq<ImagePlacement>, fixedDomain: Option<BiasDomain>)
    requires Prepare(image, template, placements, fixedDomain).Ok?
    ensures var l, ordered := Prepare(image, template, placements, fixedDomain).value, StableSort(fields, FIELD_KEY);
            var k := FirstShared(ordered);
            OrderFree(image, template, fields, placements, fixedDomain) <==>
              (k < |ordered| && LedgerLinked(l, ordered[..k]).Ok? ==> Harmonious(l, Before(ordered, k), Group(ordered, k)))
  {
    hide OrderFree, LedgerLinked, Harmonious, PairsAgree, Group, SharedFrom, StableSort, Prepare;
    var l, ordered := Prepare(image, template, placements, fixedDomain).value, StableSort(fields, FIELD_KEY);
    var k := FirstShared(ordered);
    PreparedLength(image, template, placements, fixedDomain);
    OrderFreeExactly(image, template, fields, placements, fixedDomain);
    if k < |ordered| {
      SharedGroup(ordered);
      HarmonyIsAgreement(l, Before(ordered, k), ordered, k);
    }
  }

  lemma HarmonyIsAgreement(l: Linkage, previous: Option<Fixup>, ordered: seq<Fixup>, k: nat)
    requires |l.template| == l.current.len && k < |ordered| && |Group(ordered, k)| >= 2
    ensures PairsAgree(l, previous, Group(ordered, k)) <==> Harmonious(l, previous, Group(ordered, k))
  {
    hide PairsAgree, AllLink, AllRefuse, OneLinks, Group;
    forall i | 0 <= i < |Group(ordered, k)| ensures Group(ordered, k)[i].offset == Group(ordered, k)[0].offset {
      GroupOffsets(ordered, k, i);
      GroupOffsets(ordered, k, 0);
    }
    AgreementFieldByField(l, previous, Group(ordered, k));
  }
}
