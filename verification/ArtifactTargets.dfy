/** What a target means, and when it resolves: `placement` and `target_address` of src/artifact_fixups.rs:187-217. */
module ArtifactTargets {
  import opened LittleEndian
  import opened Wrappers
  import opened ArtifactFixups

  // ---------------------------------------------------------------- the placement list

  ghost predicate EndsFit(placements: seq<ImagePlacement>) {
    forall i | 0 <= i < |placements| :: FitsI128(placements[i].address.offset + placements[i].len)
  }

  ghost predicate DistinctImages(placements: seq<ImagePlacement>) {
    forall i, j | 0 <= i < j < |placements| :: placements[i].image != placements[j].image
  }

  /** The placement check passes exactly distinct images whose ends fit; with distinct images it can only overflow. */
  lemma {:induction false} ChecksMean(placements: seq<ImagePlacement>, i: nat)
    requires i <= |placements|
    ensures PlacementsChecked(placements, i).Ok? <==>
              && (forall k | i <= k < |placements| :: FitsI128(placements[k].address.offset + placements[k].len))
              && (forall k, j | i <= k < |placements| && 0 <= j < k :: placements[j].image != placements[k].image)
    ensures DistinctImages(placements) && PlacementsChecked(placements, i).Err? ==>
              PlacementsChecked(placements, i).error == ArithmeticOverflow
    ensures PlacementsChecked(placements, i).Ok? ==> PlacementsChecked(placements, i) == Ok(())
    decreases |placements| - i
  {
    if i < |placements| {
      ChecksMean(placements, i + 1);
    }
  }

  lemma ChecksPassExactly(placements: seq<ImagePlacement>)
    ensures PlacementsChecked(placements, 0).Ok? <==> EndsFit(placements) && DistinctImages(placements)
    ensures DistinctImages(placements) && PlacementsChecked(placements, 0).Err? ==>
              PlacementsChecked(placements, 0) == Err(ArithmeticOverflow)
    ensures PlacementsChecked(placements, 0).Ok? ==> PlacementsChecked(placements, 0) == Ok(())
  {
    hide PlacementsChecked;
    ChecksMean(placements, 0);
  }

  lemma {:induction false} CheckedEnds(placements: seq<ImagePlacement>, i: nat, k: nat)
    requires i <= k < |placements| && PlacementsChecked(placements, i).Ok?
    ensures FitsI128(placements[k].address.offset + placements[k].len)
    decreases |placements| - i
  {
    if i < k {
      CheckedEnds(placements, i + 1, k);
    }
  }

  lemma {:induction false} PlacedIsListed(placements: seq<ImagePlacement>, image: ImageId)
    requires Placement(placements, image).Ok?
    ensures Placement(placements, image).value in placements && Placement(placements, image).value.image == image
  {
    if placements[0].image != image {
      PlacedIsListed(placements[1..], image);
    }
  }

  /** In a checked list the one entry of an image is found, wherever it stands. */
  lemma {:induction false} ListedIsFound(placements: seq<ImagePlacement>, k: nat)
    requires DistinctImages(placements) && k < |placements|
    ensures Placement(placements, placements[k].image) == Ok(placements[k])
  {
    if k > 0 {
      assert placements[0].image != placements[k].image;
      forall i, j | 0 <= i < j < |placements| - 1 ensures placements[1..][i].image != placements[1..][j].image {
        assert placements[i + 1].image != placements[j + 1].image;
      }
      ListedIsFound(placements[1..], k - 1);
    }
  }

  lemma {:induction false} UnlistedIsUnknown(placements: seq<ImagePlacement>, image: ImageId)
    requires forall k | 0 <= k < |placements| :: placements[k].image != image
    ensures Placement(placements, image) == Err(UnknownImage(image))
  {
    if placements != [] {
      UnlistedIsUnknown(placements[1..], image);
    }
  }

  // ---------------------------------------------------------------- targets

  /** This entry places the image, and `offset` bytes into it is this coordinate of this domain. */
  predicate PointInside(entry: ImagePlacement, image: ImageId, offset: U64, domain: BiasDomain, coordinate: int) {
    && entry.image == image && offset <= entry.len
    && entry.address.domain == domain && entry.address.offset + offset == coordinate
  }

  /** The target is this point: the address it gives, or so many bytes into the listed image it names. */
  ghost predicate Denotes(placements: seq<ImagePlacement>, target: Target, domain: BiasDomain, coordinate: int) {
    match target
    case Address(value) => value.domain == domain && value.offset == coordinate
    case UnresolvedTarget(_) => false
    case Image(image, offset) =>
      exists k | 0 <= k < |placements| :: PointInside(placements[k], image, offset, domain, coordinate)
  }

  /** An image target resolves when its image is listed and the offset is not past its end; an address always does. */
  ghost predicate Resolvable(placements: seq<ImagePlacement>, target: Target) {
    match target
    case Address(_) => true
    case UnresolvedTarget(_) => false
    case Image(image, offset) => exists k | 0 <= k < |placements| :: placements[k].image == image && offset <= placements[k].len
  }

  /** The address of a target is the point it denotes, and there is one exactly if the target is resolvable. */
  lemma TargetAddressExactly(placements: seq<ImagePlacement>, target: Target)
    requires PlacementsChecked(placements, 0).Ok?
    ensures TargetAddress(placements, target).Ok? <==> Resolvable(placements, target)
    ensures TargetAddress(placements, target).Err? ==> forall domain, coordinate :: !Denotes(placements, target, domain, coordinate)
    ensures TargetAddress(placements, target).Ok? ==>
              var goal := TargetAddress(placements, target).value;
              forall domain: BiasDomain, coordinate: int ::
                Denotes(placements, target, domain, coordinate) <==> domain == goal.domain && coordinate == goal.offset
  {
    hide PlacementsChecked;
    if target.Image? {
      ImageTargetExactly(placements, target.image, target.offset);
    }
  }

  lemma ImageTargetExactly(placements: seq<ImagePlacement>, image: ImageId, offset: U64)
    requires PlacementsChecked(placements, 0).Ok?
    ensures TargetAddress(placements, Image(image, offset)).Ok? <==> Resolvable(placements, Image(image, offset))
    ensures TargetAddress(placements, Image(image, offset)).Err? ==>
              forall domain, coordinate :: !Denotes(placements, Image(image, offset), domain, coordinate)
    ensures TargetAddress(placements, Image(image, offset)).Ok? ==>
              var goal := TargetAddress(placements, Image(image, offset)).value;
              forall domain: BiasDomain, coordinate: int ::
                Denotes(placements, Image(image, offset), domain, coordinate) <==> domain == goal.domain && coordinate == goal.offset
  {
    hide Placement;
    ChecksPassExactly(placements);
    hide PlacementsChecked;
    if listed :| 0 <= listed < |placements| && placements[listed].image == image {
      ListedIsFound(placements, listed);
      assert forall k | 0 <= k < |placements| && placements[k].image == image :: k == listed;
    } else {
      UnlistedIsUnknown(placements, image);
    }
  }

  /** Which refusal a target meets that does not resolve. */
  lemma TargetRefuses(placements: seq<ImagePlacement>, target: Target)
    requires PlacementsChecked(placements, 0).Ok?
    ensures target.UnresolvedTarget? ==> TargetAddress(placements, target) == Err(UnresolvedSymbol(target.symbol))
    ensures target.Image? && (forall k | 0 <= k < |placements| :: placements[k].image != target.image) ==>
              TargetAddress(placements, target) == Err(UnknownImage(target.image))
    ensures target.Image? ==> forall k | 0 <= k < |placements| && placements[k].image == target.image && placements[k].len < target.offset ::
              TargetAddress(placements, target) == Err(ImageOffsetOutOfBounds(target.image, target.offset, placements[k].len))
  {
    hide Placement;
    ChecksPassExactly(placements);
    hide PlacementsChecked;
    if target.Image? {
      if listed :| 0 <= listed < |placements| && placements[listed].image == target.image {
        ListedIsFound(placements, listed);
        assert forall k | 0 <= k < |placements| && placements[k].image == target.image :: k == listed;
      } else {
        UnlistedIsUnknown(placements, target.image);
      }
    }
  }

  // ---------------------------------------------------------------- what a linker starts from

  /** Preparation succeeds exactly for distinct images whose ends fit, one of them this one with the template's length. */
  lemma PreparedExactly(image: ImageId, template: seq<byte>, placements: seq<ImagePlacement>, fixedDomain: Option<BiasDomain>)
    ensures var r := Prepare(image, template, placements, fixedDomain);
            && (r.Ok? <==>
                  && DistinctImages(placements) && EndsFit(placements) && |template| < 0x1_0000_0000_0000_0000
                  && exists k | 0 <= k < |placements| :: placements[k].image == image && placements[k].len == |template|)
            && (r.Ok? ==>
                  forall k | 0 <= k < |placements| && placements[k].image == image :: r.value.current == placements[k])
  {
    hide Placement;
    ChecksPassExactly(placements);
    hide PlacementsChecked;
    if DistinctImages(placements) {
      if listed :| 0 <= listed < |placements| && placements[listed].image == image {
        ListedIsFound(placements, listed);
        assert forall k | 0 <= k < |placements| && placements[k].image == image :: k == listed;
      } else {
        UnlistedIsUnknown(placements, image);
      }
    }
  }

  lemma PreparedEnd(image: ImageId, template: seq<byte>, placements: seq<ImagePlacement>)
    requires Prepare(image, template, placements, None).Ok?
    ensures var l := Prepare(image, template, placements, None).value;
            && l.current in placements && l.current.image == image && FitsI128(l.current.address.offset + l.current.len)
            && l.template == template && |template| == l.current.len && l.fixedDomain.None? && l.placements == placements
  {
    hide PlacementsChecked;
    PlacedIsListed(placements, image);
    var k :| 0 <= k < |placements| && placements[k] == Placement(placements, image).value;
    CheckedEnds(placements, 0, k);
  }
}
