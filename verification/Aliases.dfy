/** Writable aliases of live source memory, as src/bundle.rs reads and writes them. */
module Aliases {
  import opened LittleEndian
  import opened Wrappers
  import opened Contracts
  import opened VirtualImage
  import opened StoreOrder
  import opened Snapshots

  /** An executable range and the writable buffer behind it; `pointer` is the buffer's own address. */
  datatype WritableAlias = WritableAlias(range: AddressRange, pointer: nat, buffer: array<byte>)

  /** What `WritableAlias::new` asks of its caller: whole buffers, never shared between aliases. */
  ghost predicate Owned(aliases: seq<WritableAlias>) {
    && (forall i | 0 <= i < |aliases| :: aliases[i].buffer.Length == aliases[i].range.Len())
    && (forall i, j | 0 <= i < |aliases| && 0 <= j < |aliases| && i != j :: aliases[i].buffer != aliases[j].buffer)
  }

  ghost function Buffers(aliases: seq<WritableAlias>): (buffers: set<array<byte>>)
    ensures forall i | 0 <= i < |aliases| :: aliases[i].buffer in buffers
    ensures forall b | b in buffers :: exists i | 0 <= i < |aliases| :: aliases[i].buffer == b
  {
    set i | 0 <= i < |aliases| :: aliases[i].buffer
  }

  ghost function Contents(aliases: seq<WritableAlias>): (contents: seq<Span>)
    reads Buffers(aliases)
    ensures |contents| == |aliases|
    ensures forall i | 0 <= i < |aliases| :: contents[i] == Span(aliases[i].range.start, aliases[i].buffer[..])
  {
    seq(|aliases|, i requires 0 <= i < |aliases| reads if 0 <= i < |aliases| then {aliases[i].buffer} else {} =>
      Span(aliases[i].range.start, aliases[i].buffer[..]))
  }

  /** The source memory as a plain address-to-byte map. */
  ghost function Memory(aliases: seq<WritableAlias>): Image
    reads Buffers(aliases)
  {
    View(Contents(aliases))
  }

  ghost predicate Apart(aliases: seq<WritableAlias>) {
    forall i, j | 0 <= j < i < |aliases| :: !aliases[i].range.Overlaps(aliases[j].range)
  }

  lemma ContentsAreDisjoint(aliases: seq<WritableAlias>)
    requires Owned(aliases) && Apart(aliases)
    ensures Disjoint(Contents(aliases))
  {
  }

  /** `check_aliases`: no two executable ranges overlap. */
  method CheckAliases(aliases: seq<WritableAlias>) returns (r: Result<(), Refusal>)
    ensures r == Need(Apart(aliases), InvalidRange)
  {
    for i := 0 to |aliases|
      invariant forall k, j | 0 <= j < k < i :: !aliases[k].range.Overlaps(aliases[j].range)
    {
      for j := 0 to i
        invariant forall k | 0 <= k < j :: !aliases[i].range.Overlaps(aliases[k].range)
      {
        if aliases[i].range.Overlaps(aliases[j].range) {
          return Err(InvalidRange);
        }
      }
    }
    return Ok(());
  }

  /** Index of the first alias that covers the range. */
  function FindAlias(aliases: seq<WritableAlias>, range: AddressRange): (r: Option<nat>)
    ensures r.Some? ==> r.value < |aliases| && aliases[r.value].range.Covers(range)
    ensures r.None? ==> forall i | 0 <= i < |aliases| :: !aliases[i].range.Covers(range)
  {
    if aliases == [] then None
    else if aliases[0].range.Covers(range) then Some(0)
    else
      var rest := FindAlias(aliases[1..], range);
      if rest.Some? then Some(rest.value + 1) else None
  }

  /** One snapshot against memory: an alias must cover it and hold exactly its bytes. */
  ghost function SnapshotChecked(aliases: seq<WritableAlias>, memory: Image, snapshot: ExpectedBytes): Result<(), Refusal> {
    var range :- snapshot.Range();
    var _ :- Need(FindAlias(aliases, range).Some?, InvalidRange);
    Need(Holds(memory, snapshot.address, snapshot.bytes), ExpectedBytesChanged)
  }

  ghost function SnapshotsChecked(aliases: seq<WritableAlias>, memory: Image, snapshots: seq<ExpectedBytes>): Result<(), Refusal> {
    if snapshots == [] then Ok(())
    else
      var _ :- SnapshotChecked(aliases, memory, snapshots[0]);
      SnapshotsChecked(aliases, memory, snapshots[1..])
  }

  /** The bytes behind a covered range are the memory's bytes there. */
  lemma CoveredBytesAreMemory(aliases: seq<WritableAlias>, k: nat, range: AddressRange)
    requires Owned(aliases) && Apart(aliases) && k < |aliases| && aliases[k].range.Covers(range)
    ensures var from := range.start - aliases[k].range.start;
            && from + range.Len() <= aliases[k].buffer.Length
            && Holds(Memory(aliases), range.start, aliases[k].buffer[from..from + range.Len()])
  {
    hide Memory, Contents, Apart;
    var start := aliases[k].range.start;
    var held := aliases[k].buffer[range.start - start..range.end - start];
    assert Apart(aliases);
    forall a | range.start <= a < range.end
      ensures a in Memory(aliases) && Memory(aliases)[a] == held[a - range.start]
    {
      MemoryAt(aliases, k, a);
    }
  }

  lemma MemoryAt(aliases: seq<WritableAlias>, k: nat, a: int)
    requires Owned(aliases) && Apart(aliases) && k < |aliases| && aliases[k].range.Contains(a)
    ensures a in Memory(aliases) && Memory(aliases)[a] == aliases[k].buffer[a - aliases[k].range.start]
  {
    hide View, Disjoint, Contents;
    ContentsAreDisjoint(aliases);
    ViewAt(Contents(aliases), k, a);
  }

  method CheckSnapshots(aliases: seq<WritableAlias>, snapshots: seq<ExpectedBytes>) returns (r: Result<(), Refusal>)
    requires Owned(aliases) && Apart(aliases)
    ensures r == SnapshotsChecked(aliases, Memory(aliases), snapshots)
  {
    hide Memory, Contents, SnapshotChecked, CheckSnapshot;
    for i := 0 to |snapshots|
      invariant SnapshotsChecked(aliases, Memory(aliases), snapshots)
                == SnapshotsChecked(aliases, Memory(aliases), snapshots[i..])
    {
      var one := CheckSnapshot(aliases, snapshots[i]);
      CheckSnapshotDecides(aliases, snapshots[i]);
      assert snapshots[i..][1..] == snapshots[i + 1..];
      if one.Err? {
        return Err(one.error);
      }
    }
    return Ok(());
  }

  /** The bytes of memory behind a range its alias covers. */
  function HeldBytes(alias: WritableAlias, range: AddressRange): seq<byte>
    requires alias.range.Covers(range) && alias.buffer.Length == alias.range.Len()
    reads alias.buffer
  {
    alias.buffer[range.start - alias.range.start..range.end - alias.range.start]
  }

  /** One round of `check_snapshots`: the slice behind the covering alias against the expected bytes. */
  function CheckSnapshot(aliases: seq<WritableAlias>, snapshot: ExpectedBytes): (r: Result<(), Refusal>)
    requires Owned(aliases)
    reads Buffers(aliases)
  {
    var range :- snapshot.Range();
    var found := FindAlias(aliases, range);
    if found.None? then Err(InvalidRange)
    else Need(HeldBytes(aliases[found.value], range) == snapshot.bytes, ExpectedBytesChanged)
  }

  lemma CheckSnapshotDecides(aliases: seq<WritableAlias>, snapshot: ExpectedBytes)
    requires Owned(aliases) && Apart(aliases)
    ensures CheckSnapshot(aliases, snapshot) == SnapshotChecked(aliases, Memory(aliases), snapshot)
  {
    hide Memory, FindAlias, Holds, Apart;
    var range := snapshot.Range();
    if range.Ok? {
      var found := FindAlias(aliases, range.value);
      if found.Some? {
        CoveredBytesAreMemory(aliases, found.value, range.value);
        HeldBytesDecide(Memory(aliases), snapshot, HeldBytes(aliases[found.value], range.value));
      }
    }
  }

  lemma HeldBytesDecide(memory: Image, snapshot: Span, held: seq<byte>)
    requires |held| == |snapshot.bytes| && Holds(memory, snapshot.address, held)
    ensures held == snapshot.bytes <==> Holds(memory, snapshot.address, snapshot.bytes)
  {
    if Holds(memory, snapshot.address, snapshot.bytes) {
      forall k | 0 <= k < |held| ensures held[k] == snapshot.bytes[k] {
        var a := snapshot.address + k;
        assert memory[a] == held[a - snapshot.address] && memory[a] == snapshot.bytes[a - snapshot.address];
      }
    }
  }

  /** A store together with where it goes: an alias index and an offset into its buffer. */
  datatype PlacedStore = PlacedStore(store: SourceStore, alias: nat, offset: nat)

  ghost predicate Placed(aliases: seq<WritableAlias>, placed: PlacedStore) {
    && placed.alias < |aliases|
    && aliases[placed.alias].range.start + placed.offset == placed.store.address
    && |placed.store.before| == |placed.store.after|
    && placed.offset + |placed.store.after| <= aliases[placed.alias].range.Len()
  }

  /** `SourceStore::write`: copies one side of a store into the alias, changing nothing else. */
  method WriteStore(aliases: seq<WritableAlias>, placed: PlacedStore, restore: bool)
    requires Owned(aliases) && Apart(aliases) && Placed(aliases, placed)
    modifies Buffers(aliases)
    ensures Memory(aliases)
            == Overlay(old(Memory(aliases)), if restore then placed.store.Restore() else placed.store.Publish())
  {
    var bytes := if restore then placed.store.before else placed.store.after;
    var buffer := aliases[placed.alias].buffer;
    ghost var before := Contents(aliases);
    ContentsAreDisjoint(aliases);
    CopyInto(buffer, placed.offset, bytes);
    var edit := Span(placed.store.address, bytes);
    WriteIsPatch(aliases, before, placed, edit);
  }

  method CopyInto(buffer: array<byte>, offset: nat, bytes: seq<byte>)
    requires offset + |bytes| <= buffer.Length
    modifies buffer
    ensures buffer[..] == old(buffer[..offset]) + bytes + old(buffer[offset + |bytes|..])
  {
    for i := 0 to |bytes|
      invariant buffer[..offset] == old(buffer[..offset])
      invariant forall j | 0 <= j < i :: buffer[offset + j] == bytes[j]
      invariant forall j | offset + |bytes| <= j < buffer.Length :: buffer[j] == old(buffer[j])
    {
      buffer[offset + i] := bytes[i];
    }
  }

  lemma WriteIsPatch(aliases: seq<WritableAlias>, before: seq<Span>, placed: PlacedStore, edit: Span)
    requires Owned(aliases) && Apart(aliases) && Placed(aliases, placed)
    requires |before| == |aliases| && Disjoint(before)
    requires edit.address == placed.store.address && |edit.bytes| == |placed.store.after|
    requires forall i | 0 <= i < |aliases| :: before[i].address == aliases[i].range.start && |before[i].bytes| == aliases[i].buffer.Length
    requires forall i | 0 <= i < |aliases| && i != placed.alias :: aliases[i].buffer[..] == before[i].bytes
    requires var k := placed.alias;
             aliases[k].buffer[..] == before[k].bytes[..placed.offset] + edit.bytes + before[k].bytes[placed.offset + |edit.bytes|..]
    ensures Memory(aliases) == Overlay(View(before), edit)
  {
    hide View, Disjoint;
    var after := Contents(aliases);
    forall i | 0 <= i < |before| ensures PatchedBy(before[i], after[i], edit) {
      if i != placed.alias {
        assert !aliases[i].range.Overlaps(aliases[placed.alias].range);
      }
    }
    PatchedView(before, after, edit);
  }
}
