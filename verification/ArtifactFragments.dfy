/** Fixed-size artifact fragments and what a processor does with them once linked: src/artifact_fragments.rs. */
module ArtifactFragments {
  import opened LittleEndian
  import opened Wrappers
  import opened ArtifactFixups
  import opened ArtifactTargets
  import opened ArtifactLinking
  import opened ArtifactPlacement

  datatype Fragment = Fragment(bytes: seq<byte>, fields: seq<Fixup>)

  /** Takes its own address, adds the linked 64-bit distance to the target and pushes the sum. */
  function LogicalPcFragment(target: Target): Fragment {
    Fragment(
      [0x48, 0x8d, 0x05, 0, 0, 0, 0, 0x48, 0xba] + Zeros(8) + [0x48, 0x01, 0xd0, 0x50],
      [Fixup(9, Delta64(7), target, LogicalPc, Zeros(8))])
  }

  function Transfer(opcode: byte, target: Target, role: Role): Fragment {
    Fragment([opcode] + Zeros(4), [Fixup(1, PcRelative32(5), target, role, Zeros(4))])
  }

  function HookCallFragment(target: Target): Fragment {
    Transfer(0xe8, target, HookCall)
  }

  function ReturnJumpFragment(target: Target): Fragment {
    Transfer(0xe9, target, Return)
  }

  // ---------------------------------------------------------------- the processor

  const WORD := 0x1_0000_0000_0000_0000

  /** Registers and stack, top first; every number is kept modulo 2^64. */
  datatype Machine = Machine(rip: int, rax: int, rdx: int, stack: seq<int>)

  datatype Instruction =
    | LeaRax(displacement: int)
    | MovRdx(immediate: int)
    | AddRaxRdx
    | PushRax
    | Call(displacement: int)
    | Jump(displacement: int)

  /** The six instructions the fragments are made of, with their lengths. */
  function Decode(code: seq<byte>): Option<(Instruction, nat)> {
    if |code| >= 7 && code[..3] == [0x48, 0x8d, 0x05] then Some((LeaRax(Signed(code[3..7])), 7))
    else if |code| >= 10 && code[..2] == [0x48, 0xba] then Some((MovRdx(Unsigned(code[2..10])), 10))
    else if |code| >= 3 && code[..3] == [0x48, 0x01, 0xd0] then Some((AddRaxRdx, 3))
    else if |code| >= 1 && code[0] == 0x50 then Some((PushRax, 1))
    else if |code| >= 5 && code[0] == 0xe8 then Some((Call(Signed(code[1..5])), 5))
    else if |code| >= 5 && code[0] == 0xe9 then Some((Jump(Signed(code[1..5])), 5))
    else None
  }

  function Execute(instruction: Instruction, next: int, m: Machine): Machine {
    match instruction
    case LeaRax(displacement) => m.(rip := next % WORD, rax := (next + displacement) % WORD)
    case MovRdx(immediate) => m.(rip := next % WORD, rdx := immediate % WORD)
    case AddRaxRdx => m.(rip := next % WORD, rax := (m.rax + m.rdx) % WORD)
    case PushRax => m.(rip := next % WORD, stack := [m.rax] + m.stack)
    case Call(displacement) => m.(rip := (next + displacement) % WORD, stack := [next % WORD] + m.stack)
    case Jump(displacement) => m.(rip := (next + displacement) % WORD)
  }

  /** Runs `steps` instructions of code loaded at `base`; none when it runs out of known code. */
  function Run(code: seq<byte>, base: int, m: Machine, steps: nat): Option<Machine>
    decreases steps
  {
    if steps == 0 then Some(m)
    else
      var at := (m.rip - base) % WORD;
      if at > |code| then None
      else match Decode(code[at..])
           case None => None
           case Some((instruction, len)) => Run(code, base, Execute(instruction, m.rip + len, m), steps - 1)
  }

  lemma {:induction false} RunStep(code: seq<byte>, base: int, m: Machine, steps: nat, at: nat, instruction: Instruction, len: nat)
    requires at <= |code| < WORD && m.rip == (base + at) % WORD && Decode(code[at..]) == Some((instruction, len))
    ensures Run(code, base, m, steps + 1) == Run(code, base, Execute(instruction, base + at + len, m), steps)
  {
    hide Decode;
    assert (m.rip - base) % WORD == at by {
      SameWord(m.rip - base, at, (base + at) / WORD);
    }
    ExecuteSeesWords(instruction, m.rip + len, base + at + len, (base + at) / WORD, m);
  }

  lemma SameWord(a: int, b: int, k: int)
    requires b == a + k * WORD
    ensures a % WORD == b % WORD
  {
  }

  lemma ExecuteSeesWords(instruction: Instruction, a: int, b: int, k: int, m: Machine)
    requires b == a + k * WORD
    ensures Execute(instruction, a, m) == Execute(instruction, b, m)
  {
    SameWord(a, b, k);
    if instruction.LeaRax? || instruction.Call? || instruction.Jump? {
      SameWord(a + instruction.displacement, b + instruction.displacement, k);
    }
  }

  // ---------------------------------------------------------------- what linked fragments do

  lemma EightBytes()
    ensures Pow256(8) == WORD && Pow256(4) == 0x1_0000_0000
  {
    assert Pow256(4) == 0x1_0000_0000;
    assert Pow256(6) == 256 * (256 * Pow256(4));
  }

  /** A loaded image contains a fragment's bytes: the fragment's first byte is at run-time address `address`. */
  ghost predicate Loaded(code: seq<byte>, base: int, at: nat, out: seq<byte>, address: int) {
    at + |out| <= |code| < WORD && code[at..at + |out|] == out && base + at == address
  }

  /** Only the field's bytes differ from the template. */
  lemma OneFieldLinked(image: ImageId, f: Fragment, placements: seq<ImagePlacement>)
    requires |f.fields| == 1 && Linked(image, f.bytes, f.fields, placements, None).Ok?
    ensures var out := Linked(image, f.bytes, f.fields, placements, None).value;
            |out| == |f.bytes| && forall i | 0 <= i < |out| && !f.fields[0].Contains(i) :: out[i] == f.bytes[i]
  {
    hide FieldBytes, GoodLedger, Linked;
    LinkedMeans(image, f.bytes, f.fields, placements, None);
  }

  /** The point a target denotes in the domain of this image: the coordinate that moves with the image's load bias. */
  ghost predicate TargetIs(image: ImageId, placements: seq<ImagePlacement>, target: Target, goal: int) {
    exists here | 0 <= here < |placements| && placements[here].image == image ::
      Denotes(placements, target, placements[here].address.domain, goal)
  }

  /** The one field of a linked fragment resolves to the one point its target denotes. */
  lemma FieldReachesItsTarget(image: ImageId, f: Fragment, placements: seq<ImagePlacement>, bias: int)
    requires |f.fields| == 1 && Linked(image, f.bytes, f.fields, placements, None).Ok?
    requires !f.fields[0].encoding.FixedSigned32?
    ensures var l, out := Prepare(image, f.bytes, placements, None).value, Linked(image, f.bytes, f.fields, placements, None).value;
            && f.fields[0].encoding.Origin().Some? && f.fields[0].End() <= |out|
            && TargetIs(image, placements, f.fields[0].target, Resolves(l, f.fields[0], out, bias) - bias)
            && forall goal :: TargetIs(image, placements, f.fields[0].target, goal) <==> Resolves(l, f.fields[0], out, bias) == bias + goal
  {
    hide Linked, Denotes, Signed;
    LinkedIsPrepared(image, f.bytes, f.fields, placements, None);
    FieldsReachTheirTargets(image, f.bytes, f.fields, placements, None, 0, bias);
    PreparedEnd(image, f.bytes, placements);
    ChecksPassExactly(placements);
    TargetAddressExactly(placements, f.fields[0].target);
    PreparedExactly(image, f.bytes, placements, None);
    hide Prepare, PlacementsChecked, TargetAddress;
  }

  lemma LogicalPcLinked(image: ImageId, target: Target, placements: seq<ImagePlacement>)
    requires var f := LogicalPcFragment(target); Linked(image, f.bytes, f.fields, placements, None).Ok?
    ensures var f := LogicalPcFragment(target);
            var out := Linked(image, f.bytes, f.fields, placements, None).value;
            && |out| == 21 && out[..9] == [0x48, 0x8d, 0x05, 0, 0, 0, 0, 0x48, 0xba] && out[17..] == [0x48, 0x01, 0xd0, 0x50]
  {
    hide Linked;
    var f := LogicalPcFragment(target);
    var out := Linked(image, f.bytes, f.fields, placements, None).value;
    OneFieldLinked(image, f, placements);
    assert out[..9] == f.bytes[..9] && out[17..] == f.bytes[17..];
  }

  lemma LogicalPcDecodes(code: seq<byte>, at: nat, out: seq<byte>)
    requires at + 21 <= |code| && |out| == 21 && code[at..at + 21] == out
    requires out[..9] == [0x48, 0x8d, 0x05, 0, 0, 0, 0, 0x48, 0xba] && out[17..] == [0x48, 0x01, 0xd0, 0x50]
    ensures Decode(code[at..]) == Some((LeaRax(0), 7))
    ensures Decode(code[at + 7..]) == Some((MovRdx(Unsigned(out[9..17])), 10))
    ensures Decode(code[at + 17..]) == Some((AddRaxRdx, 3))
    ensures Decode(code[at + 20..]) == Some((PushRax, 1))
  {
    hide Signed, Unsigned;
    var lea, mov, add, push := code[at..], code[at + 7..], code[at + 17..], code[at + 20..];
    assert lea[..3] == [0x48, 0x8d, 0x05] && lea[3..7] == Zeros(4) by {
      SliceAt(code, at, out, 0, 7);
      assert out[0..7] == out[..9][..7];
      assert lea[..3] == lea[..7][..3] && lea[3..7] == lea[..7][3..];
    }
    ZeroIsSigned();
    assert mov[..2] == [0x48, 0xba] && mov[2..10] == out[9..17] by {
      SliceAt(code, at, out, 7, 10);
      assert out[7..17][..2] == out[..9][7..];
      assert mov[..2] == mov[..10][..2] && mov[2..10] == mov[..10][2..];
    }
    assert mov[..3][1] == mov[..2][1] == 0xba;
    assert add[..3] == [0x48, 0x01, 0xd0] by {
      SliceAt(code, at, out, 17, 3);
      assert out[17..20] == out[17..][..3];
    }
    assert |add| >= 10 ==> add[..2][1] == add[..3][1] == 0x01;
    assert push[0] == 0x50 by {
      SliceAt(code, at, out, 20, 1);
      assert push[..1][0] == out[20..21][0];
      assert out[17..][3] == out[20];
    }
    assert |push| >= 3 ==> push[..3][0] == 0x50;
    assert |push| >= 10 ==> push[..2][0] == 0x50;
  }

  lemma SliceAt(code: seq<byte>, at: nat, out: seq<byte>, i: nat, n: nat)
    requires at + |out| <= |code| && code[at..at + |out|] == out && i + n <= |out|
    ensures code[at + i..][..n] == out[i..i + n]
  {
    assert code[at + i..][..n] == code[at + i..at + i + n];
    forall k | at + i <= k < at + i + n ensures code[k] == out[k - at] {
      assert code[at..at + |out|][k - at] == code[k];
    }
  }

  lemma ZeroIsSigned()
    ensures Signed(Zeros(4)) == 0
  {
    UnsignedOfZeros(4);
  }

  /** A signed field and its unsigned reading are the same word. */
  lemma SignedIsUnsignedWord(bytes: seq<byte>, x: int)
    requires |bytes| == 8
    ensures (x + Unsigned(bytes)) % WORD == (x + Signed(bytes)) % WORD
  {
    EightBytes();
  }

  /** Whatever the load bias, the four linked instructions push the run-time address of the target. */
  lemma LogicalPcPushesTheTarget(
    image: ImageId, target: Target, placements: seq<ImagePlacement>, bias: int, code: seq<byte>, base: int, at: nat, m: Machine)
    requires var f := LogicalPcFragment(target); Linked(image, f.bytes, f.fields, placements, None).Ok?
    requires var f := LogicalPcFragment(target);
             var l := Prepare(image, f.bytes, placements, None).value;
             Loaded(code, base, at, Linked(image, f.bytes, f.fields, placements, None).value, bias + l.current.address.offset)
    requires m.rip == (base + at) % WORD
    ensures exists goal :: TargetIs(image, placements, target, goal)
    ensures forall goal | TargetIs(image, placements, target, goal) ::
              var r := Run(code, base, m, 4);
              && r.Some?
              && r.value.rip == (base + at + 21) % WORD
              && r.value.stack == [(bias + goal) % WORD] + m.stack
  {
    hide Linked, Prepare, Decode, TargetIs, Denotes, Signed, Unsigned, Run;
    var f := LogicalPcFragment(target);
    var out := Linked(image, f.bytes, f.fields, placements, None).value;
    LogicalPcLinked(image, target, placements);
    FieldReachesItsTarget(image, f, placements, bias);
    LogicalPcDecodes(code, at, out);
    RunsLogicalPc(code, base, at, out, m);
    var anchor := base + at + 7;
    assert (anchor % WORD + Unsigned(out[9..17]) % WORD) % WORD == (anchor + Signed(out[9..17])) % WORD by {
      SignedIsUnsignedWord(out[9..17], anchor);
      SumOfWords(anchor, Unsigned(out[9..17]));
    }
  }

  lemma SumOfWords(a: int, b: int)
    ensures (a % WORD + b % WORD) % WORD == (a + b) % WORD
  {
    SameWord(a % WORD + b % WORD, a + b, a / WORD + b / WORD);
  }

  lemma RunsLogicalPc(code: seq<byte>, base: int, at: nat, out: seq<byte>, m: Machine)
    requires at + 21 <= |code| < WORD && |out| == 21 && m.rip == (base + at) % WORD
    requires Decode(code[at..]) == Some((LeaRax(0), 7))
    requires Decode(code[at + 7..]) == Some((MovRdx(Unsigned(out[9..17])), 10))
    requires Decode(code[at + 17..]) == Some((AddRaxRdx, 3))
    requires Decode(code[at + 20..]) == Some((PushRax, 1))
    ensures var rax := ((base + at + 7) % WORD + Unsigned(out[9..17]) % WORD) % WORD;
            Run(code, base, m, 4) == Some(Machine((base + at + 21) % WORD, rax, Unsigned(out[9..17]) % WORD, [rax] + m.stack))
  {
    hide Decode, Unsigned, Run;
    RunStep(code, base, m, 3, at, LeaRax(0), 7);
    var m1 := Execute(LeaRax(0), base + at + 7, m);
    RunStep(code, base, m1, 2, at + 7, MovRdx(Unsigned(out[9..17])), 10);
    var m2 := Execute(MovRdx(Unsigned(out[9..17])), base + at + 17, m1);
    RunStep(code, base, m2, 1, at + 17, AddRaxRdx, 3);
    var m3 := Execute(AddRaxRdx, base + at + 20, m2);
    RunStep(code, base, m3, 0, at + 20, PushRax, 1);
    RunNothing(code, base, Execute(PushRax, base + at + 21, m3));
  }

  /** A linked call or jump goes to the target at every load bias; only the call leaves a return address. */
  lemma TransfersReachTheTarget(
    image: ImageId, opcode: byte, target: Target, role: Role, placements: seq<ImagePlacement>,
    bias: int, code: seq<byte>, base: int, at: nat, m: Machine)
    requires opcode == 0xe8 || opcode == 0xe9
    requires var f := Transfer(opcode, target, role); Linked(image, f.bytes, f.fields, placements, None).Ok?
    requires var f := Transfer(opcode, target, role);
             var l := Prepare(image, f.bytes, placements, None).value;
             Loaded(code, base, at, Linked(image, f.bytes, f.fields, placements, None).value, bias + l.current.address.offset)
    requires m.rip == (base + at) % WORD
    ensures exists goal :: TargetIs(image, placements, target, goal)
    ensures forall goal | TargetIs(image, placements, target, goal) ::
              Run(code, base, m, 1)
              == Some(m.(rip := (bias + goal) % WORD,
                         stack := if opcode == 0xe8 then [(base + at + 5) % WORD] + m.stack else m.stack))
  {
    hide Linked, Prepare, TargetIs, Denotes, Signed, Unsigned, Run;
    var f := Transfer(opcode, target, role);
    var out := Linked(image, f.bytes, f.fields, placements, None).value;
    FieldReachesItsTarget(image, f, placements, bias);
    OneFieldLinked(image, f, placements);
    TransferDecodes(code, at, out, opcode);
    var displacement := Signed(out[1..5]);
    RunStep(code, base, m, 0, at, if opcode == 0xe8 then Call(displacement) else Jump(displacement), 5);
    RunNothing(code, base, Execute(if opcode == 0xe8 then Call(displacement) else Jump(displacement), base + at + 5, m));
  }

  /** The callback fragment calls its target and returns behind itself, at every load bias. */
  lemma HookCallReachesItsHook(
    image: ImageId, target: Target, placements: seq<ImagePlacement>, bias: int, code: seq<byte>, base: int, at: nat, m: Machine)
    requires var f := HookCallFragment(target); Linked(image, f.bytes, f.fields, placements, None).Ok?
    requires var f := HookCallFragment(target);
             var l := Prepare(image, f.bytes, placements, None).value;
             Loaded(code, base, at, Linked(image, f.bytes, f.fields, placements, None).value, bias + l.current.address.offset)
    requires m.rip == (base + at) % WORD
    ensures exists goal :: TargetIs(image, placements, target, goal)
    ensures forall goal | TargetIs(image, placements, target, goal) ::
              Run(code, base, m, 1)
              == Some(m.(rip := (bias + goal) % WORD, stack := [(base + at + 5) % WORD] + m.stack))
  {
    hide Linked, Prepare, Run, Loaded, TargetIs;
    TransfersReachTheTarget(image, 0xe8, target, HookCall, placements, bias, code, base, at, m);
  }

  /** The return fragment rejoins its target and changes nothing else. */
  lemma ReturnJumpRejoins(
    image: ImageId, target: Target, placements: seq<ImagePlacement>, bias: int, code: seq<byte>, base: int, at: nat, m: Machine)
    requires var f := ReturnJumpFragment(target); Linked(image, f.bytes, f.fields, placements, None).Ok?
    requires var f := ReturnJumpFragment(target);
             var l := Prepare(image, f.bytes, placements, None).value;
             Loaded(code, base, at, Linked(image, f.bytes, f.fields, placements, None).value, bias + l.current.address.offset)
    requires m.rip == (base + at) % WORD
    ensures exists goal :: TargetIs(image, placements, target, goal)
    ensures forall goal | TargetIs(image, placements, target, goal) ::
              Run(code, base, m, 1) == Some(m.(rip := (bias + goal) % WORD))
  {
    hide Linked, Prepare, Run, Loaded, TargetIs;
    TransfersReachTheTarget(image, 0xe9, target, Return, placements, bias, code, base, at, m);
  }

  lemma RunNothing(code: seq<byte>, base: int, m: Machine)
    ensures Run(code, base, m, 0) == Some(m)
  {
  }

  lemma TransferDecodes(code: seq<byte>, at: nat, out: seq<byte>, opcode: byte)
    requires at + 5 <= |code| && |out| == 5 && code[at..at + 5] == out && out[0] == opcode
    requires opcode == 0xe8 || opcode == 0xe9
    ensures Decode(code[at..]) == Some((if opcode == 0xe8 then Call(Signed(out[1..5])) else Jump(Signed(out[1..5])), 5))
  {
    hide Signed, Unsigned;
    var here := code[at..];
    assert here[0] == code[at..at + 5][0] == opcode;
    SliceAt(code, at, out, 1, 4);
    assert here[1..5] == code[at + 1..][..4];
    assert here[..3][0] == opcode && here[..2][0] == opcode;
  }

  /** A transfer links exactly when its target resolves in the same domain within reach of a signed rel32. */
  lemma TransferLinksExactly(image: ImageId, opcode: byte, target: Target, role: Role, placements: seq<ImagePlacement>)
    requires Prepare(image, Transfer(opcode, target, role).bytes, placements, None).Ok?
    ensures var f := Transfer(opcode, target, role);
            var here := Prepare(image, f.bytes, placements, None).value.current.address;
            Linked(image, f.bytes, f.fields, placements, None).Ok? <==>
              exists goal :: Denotes(placements, target, here.domain, goal) && -0x8000_0000 <= goal - (here.offset + 5) < 0x8000_0000
  {
    var f := Transfer(opcode, target, role);
    var l := Prepare(image, f.bytes, placements, None).value;
    assert PlacementsChecked(placements, 0).Ok?;
    hide Prepare, TargetAddress, Denotes, FieldBytes, PlacementsChecked;
    FieldLinksExactly(l, f.fields[0]);
    LinkedMeans(image, f.bytes, f.fields, placements, None);
    PreparedEnd(image, f.bytes, placements);
    assert f.bytes[1..5] == Zeros(4);
    assert f.fields[0].encoding == PcRelative32(5);
    hide Linked, LinkedBytes, EncodeSigned, Signed;
    EightBytes();
    OneFieldLedger(l, f.fields);
    assert forall goal: int :: LinksAt(l, f.fields[0], goal) <==>
                               Denotes(placements, target, l.current.address.domain, goal)
                               && -0x8000_0000 <= goal - (l.current.address.offset + 5) < 0x8000_0000;
  }

  lemma OneFieldLedger(l: Linkage, fields: seq<Fixup>)
    requires |fields| == 1
    ensures GoodLedger(l, fields) <==> FieldFits(l, fields[0])
  {
    hide FieldFits;
    assert GoodLedger(l, fields) ==> FieldFits(l, fields[0]);
  }
}
