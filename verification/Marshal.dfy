/** The two-pass activation marshal (eval/instance.cc): a sizing pass budgets the activation buffer,
    a writing pass fills it. Between the passes only the memo of the activation keeps lazily bound
    values still. */
module Marshal {
  import opened Machine
  import opened Values
  import opened Activations
  import opened BumpArena
  import opened Counting
  import opened UnknownSets
  import ThreeValued

  datatype Repr =
    | BoolRepr | IntRepr | UintRepr | DoubleRepr
    | StringRepr | BytesRepr | TypeRepr
    | DurationRepr | TimestampRepr
    | MessageRepr | ListRepr | MapRepr
    | UnbindableRepr

  datatype Variable = Variable(name: Name, repr: Repr, slot: UInt32)

  /** What a workspace slot holds after the marshal: a text span, an unknown, null, or the value taken
      out of the bound one under the declared representation. */
  datatype Cell =
    | SpanCell(repr: Repr, ptr: UInt32, len: UInt32)
    | UnknownCell(unk: UInt32)
    | NullCell
    | InlineCell(repr: Repr, bound: Bound)

  /** `Overran` is where a text is copied past its extent: the run is given up there. */
  datatype Status =
    | Done | BinderFailed | MallocFailed | SlotOutOfRange | OutOfSpace | Overran | NotBound | KindMismatch | NotBindable

  const DESCRIPTOR_BYTES: UInt32 := 16
  const CELL_BYTES: nat := 24

  /** The variables that a full unknown pattern blanks, with their attribute ids. */
  type Blanked = map<Name, UInt32>

  // ---- what a variable costs ----

  predicate IsSpan(r: Repr) {
    r.StringRepr? || r.BytesRepr? || r.TypeRepr?
  }

  /** The bytes that a declared representation takes out of a bound value, if the kinds fit. */
  function PayloadOf(r: Repr, b: Bound): Option<seq<Byte>> {
    if r.StringRepr? && b.kind in {StringKind, MessageKind(StringWrapper)} then Some(b.payload)
    else if r.BytesRepr? && b.kind in {BytesKind, MessageKind(BytesWrapper)} then Some(b.payload)
    else if r.TypeRepr? && b.kind == TypeKind then Some(b.payload)
    else None
  }

  /** Whether a bound value can be encoded under a declared representation. Scalars take null and their
      wrapper messages as well, times take their messages. */
  predicate Fits(r: Repr, b: Bound) {
    match r
    case BoolRepr => b.kind in {NullKind, BoolKind, MessageKind(BoolWrapper)}
    case IntRepr => b.kind in {NullKind, IntKind, MessageKind(IntWrapper)}
    case UintRepr => b.kind in {NullKind, UintKind, MessageKind(UintWrapper)}
    case DoubleRepr => b.kind in {NullKind, DoubleKind, MessageKind(DoubleWrapper)}
    case DurationRepr => b.kind in {DurationKind, MessageKind(DurationMessage)}
    case TimestampRepr => b.kind in {TimestampKind, MessageKind(TimestampMessage)}
    case MessageRepr => b.kind.MessageKind?
    case ListRepr => b.kind == ListKind
    case MapRepr => b.kind == MapKind
    case UnbindableRepr => false
    case _ => PayloadOf(r, b).Some?
  }

  /** The cell of a value that takes no buffer space. */
  function CellOf(r: Repr, b: Bound): Cell {
    if b.kind.NullKind? then NullCell else InlineCell(r, b)
  }

  // ---- which kinds a representation takes ----

  /** The representation under which a kind is declared; null and the remaining kinds have none. */
  function OwnRepr(k: Kind): Option<Repr> {
    match k
    case BoolKind => Some(BoolRepr)
    case IntKind => Some(IntRepr)
    case UintKind => Some(UintRepr)
    case DoubleKind => Some(DoubleRepr)
    case StringKind => Some(StringRepr)
    case BytesKind => Some(BytesRepr)
    case TypeKind => Some(TypeRepr)
    case DurationKind => Some(DurationRepr)
    case TimestampKind => Some(TimestampRepr)
    case ListKind => Some(ListRepr)
    case MapKind => Some(MapRepr)
    case MessageKind(_) => Some(MessageRepr)
    case NullKind => None
    case OtherKind => None
  }

  /** The kind that a well-known message stands for. */
  function Peeled(m: Message): Option<Kind> {
    match m
    case BoolWrapper => Some(BoolKind)
    case IntWrapper => Some(IntKind)
    case UintWrapper => Some(UintKind)
    case DoubleWrapper => Some(DoubleKind)
    case StringWrapper => Some(StringKind)
    case BytesWrapper => Some(BytesKind)
    case DurationMessage => Some(DurationKind)
    case TimestampMessage => Some(TimestampKind)
    case PlainMessage => None
  }

  /** A value that is neither null nor a message fits the representation of its kind and no other. */
  lemma OwnReprOnly(r: Repr, b: Bound)
    requires !b.kind.NullKind? && !b.kind.MessageKind?
    ensures Fits(r, b) <==> Some(r) == OwnRepr(b.kind)
  {
  }

  /** A message fits as a message, and a well-known one also where the kind it stands for fits. */
  lemma MessagesFit(r: Repr, b: Bound)
    requires b.kind.MessageKind?
    ensures OwnRepr(b.kind) == Some(MessageRepr)
    ensures Fits(r, b) <==>
      r == MessageRepr || (Peeled(b.kind.message).Some? && Some(r) == OwnRepr(Peeled(b.kind.message).value))
  {
  }

  /** Null fits the four scalars and nothing else. */
  lemma NullFits(r: Repr, b: Bound)
    requires b.kind.NullKind?
    ensures Fits(r, b) <==> r in {BoolRepr, IntRepr, UintRepr, DoubleRepr}
    ensures CellOf(r, b) == NullCell
  {
  }

  /** A text that fits arrives with its bytes, and texts are all that takes buffer space. */
  lemma TextsArePayloads(r: Repr, b: Bound)
    ensures PayloadOf(r, b).Some? <==> Fits(r, b) && r in {StringRepr, BytesRepr, TypeRepr}
    ensures PayloadOf(r, b).Some? ==> PayloadOf(r, b).value == b.payload
    ensures IsSpan(r) <==> r in {StringRepr, BytesRepr, TypeRepr}
  {
  }

  // ---- 32-bit lengths ----

  /** The bytes of a text of n bytes that are copied: the length cut to 32 bits. */
  function Copied(n: nat): UInt32 {
    n % TWO_32
  }

  /** The bytes that the cursor moves on for it. */
  function Extent(n: nat): UInt32 {
    AlignUp8(Copied(n))
  }

  /** What a caller can check of a length. */
  predicate Contained(n: nat) {
    n % TWO_32 <= TWO_32 - 8
  }

  /** The copy stays inside the extent exactly when the length is not within seven bytes below a multiple
      of 4 GiB. */
  lemma CopyStaysInside(n: nat)
    ensures Copied(n) <= Extent(n) <==> Contained(n)
    ensures !Contained(n) ==> Extent(n) == 0
  {
  }

  /** A text arrives whole and inside its extent exactly when it has at most 2^32 - 8 bytes. */
  lemma WholeTextArrives(p: seq<Byte>)
    ensures Copied(|p|) <= |p|
    ensures Copied(|p|) <= Extent(|p|) && p[..Copied(|p|)] == p <==> |p| <= TWO_32 - 8
  {
    CopyStaysInside(|p|);
    if p[..Copied(|p|)] == p {
      assert Copied(|p|) == |p|;
    }
    if |p| <= TWO_32 - 8 {
      assert Copied(|p|) == |p|;
    }
  }

  /** The instances: a text of 2^32 - 1 bytes is copied into an empty extent, and one of 2^32 bytes is cut
      to nothing. */
  lemma LostExtent(p: seq<Byte>)
    ensures |p| == 0xFFFF_FFFF ==> Copied(|p|) == 0xFFFF_FFFF && Extent(|p|) == 0 && !Contained(|p|)
    ensures |p| == 0x1_0000_0000 ==> p[..Copied(|p|)] == [] && Extent(|p|) == 0 && Contained(|p|)
  {
  }

  function RoundUp8(n: nat): nat {
    (n + 7) / 8 * 8
  }

  function SpanCost(v: Variable, blanked: Blanked, known: map<Name, Bound>): nat {
    if v.name !in blanked && v.name in known && PayloadOf(v.repr, known[v.name]).Some?
    then Extent(|PayloadOf(v.repr, known[v.name]).value|)
    else 0
  }

  function Cost(v: Variable, blanked: Blanked, known: map<Name, Bound>): nat {
    if v.name in blanked then 16 else SpanCost(v, blanked, known)
  }

  function SpanCosts(vars: seq<Variable>, blanked: Blanked, known: map<Name, Bound>): seq<nat> {
    seq(|vars|, i requires 0 <= i < |vars| => SpanCost(vars[i], blanked, known))
  }

  function Costs(vars: seq<Variable>, blanked: Blanked, known: map<Name, Bound>): (r: seq<nat>)
    ensures |r| == |vars|
  {
    seq(|vars|, i requires 0 <= i < |vars| => Cost(vars[i], blanked, known))
  }

  function Total(s: seq<nat>): nat {
    if |s| == 0 then 0 else Total(s[..|s| - 1]) + s[|s| - 1]
  }

  function CountBlanked(vars: seq<Variable>, blanked: Blanked): nat {
    if |vars| == 0 then 0
    else CountBlanked(vars[..|vars| - 1], blanked) + if vars[|vars| - 1].name in blanked then 1 else 0
  }

  /** Where variable i's payload starts. */
  function Start(costs: seq<nat>, i: nat): nat
    requires i <= |costs|
  {
    Total(costs[..i])
  }

  lemma {:induction false} BudgetSplits(vars: seq<Variable>, blanked: Blanked, known: map<Name, Bound>)
    ensures Total(Costs(vars, blanked, known)) == Total(SpanCosts(vars, blanked, known)) + 16 * CountBlanked(vars, blanked)
  {
    hide PayloadOf, Extent;
    if |vars| > 0 {
      var front := vars[..|vars| - 1];
      BudgetSplits(front, blanked, known);
      assert Costs(vars, blanked, known)[..|front|] == Costs(front, blanked, known);
      assert SpanCosts(vars, blanked, known)[..|front|] == SpanCosts(front, blanked, known);
    }
  }

  lemma StartStep(costs: seq<nat>, i: nat)
    requires i < |costs|
    ensures Start(costs, i + 1) == Start(costs, i) + costs[i]
  {
    assert costs[..i + 1][..i] == costs[..i];
  }

  lemma {:induction false} StartMono(costs: seq<nat>, i: nat, j: nat)
    requires i <= j <= |costs|
    ensures Start(costs, i) <= Start(costs, j)
  {
    if i < j {
      StartMono(costs, i, j - 1);
      StartStep(costs, j - 1);
    }
  }

  /** Extents do not overlap: each one ends before any later one starts, and within the total. */
  lemma ExtentsApart(costs: seq<nat>, i: nat, j: nat)
    requires i < j <= |costs|
    ensures Start(costs, i) + costs[i] <= Start(costs, j) <= Total(costs)
  {
    StartStep(costs, i);
    StartMono(costs, i + 1, j);
    StartMono(costs, j, |costs|);
    assert costs[..|costs|] == costs;
  }

  // ---- the sizing pass ----

  /** Every text variable below n has its value at hand, or will never have one. */
  ghost predicate Settled(vars: seq<Variable>, n: nat, blanked: Blanked, known: map<Name, Bound>, binders: map<Name, nat>) {
    n <= |vars| && forall j :: 0 <= j < n && IsSpan(vars[j].repr) && vars[j].name !in blanked ==>
      vars[j].name in known || vars[j].name !in binders
  }

  /** Nothing becomes known except through a binder. */
  ghost predicate Grows(known: map<Name, Bound>, known': map<Name, Bound>, binders: map<Name, nat>) {
    Extends(known, known') && forall n :: n in known' ==> n in known || n in binders
  }

  lemma CostStable(v: Variable, blanked: Blanked, known: map<Name, Bound>, known': map<Name, Bound>, binders: map<Name, nat>)
    requires Grows(known, known', binders)
    requires IsSpan(v.repr) && v.name !in blanked ==> v.name in known || v.name !in binders
    ensures SpanCost(v, blanked, known) == SpanCost(v, blanked, known')
    ensures Cost(v, blanked, known) == Cost(v, blanked, known')
  {
  }

  lemma CostsStable(vars: seq<Variable>, n: nat, blanked: Blanked,
                    known: map<Name, Bound>, known': map<Name, Bound>, binders: map<Name, nat>)
    requires Settled(vars, n, blanked, known, binders) && Grows(known, known', binders)
    ensures Settled(vars, n, blanked, known', binders)
    ensures SpanCosts(vars[..n], blanked, known) == SpanCosts(vars[..n], blanked, known')
    ensures Costs(vars[..n], blanked, known) == Costs(vars[..n], blanked, known')
  {
    hide SpanCost, Cost;
    forall j | 0 <= j < n
      ensures SpanCost(vars[j], blanked, known) == SpanCost(vars[j], blanked, known')
      ensures Cost(vars[j], blanked, known) == Cost(vars[j], blanked, known')
    {
      CostStable(vars[j], blanked, known, known', binders);
    }
  }

  lemma KnownGrows(bindings: map<Name, Bound>, binders: map<Name, nat>, cache: map<Name, Bound>, cache': map<Name, Bound>)
    requires bindings.Keys !! binders.Keys && cache.Keys <= binders.Keys && cache'.Keys <= binders.Keys
    requires Extends(cache, cache')
    ensures Grows(bindings + cache, bindings + cache', binders)
  {
  }

  lemma GrowsOnward(a: map<Name, Bound>, b: map<Name, Bound>, c: map<Name, Bound>, binders: map<Name, nat>)
    requires Grows(a, b, binders) && Grows(b, c, binders)
    ensures Grows(a, c, binders)
  {
  }

  lemma RoundUpOnto(total: nat, size: nat)
    requires total % 8 == 0
    ensures RoundUp8(total + size) == total + RoundUp8(size)
  {
  }

  lemma WrapOnce(sum: nat, r: nat)
    ensures (sum % TWO_32 + r) % TWO_32 == (sum + r) % TWO_32
  {
    var q := sum / TWO_32;
    assert sum + r == sum % TWO_32 + r + q * TWO_32;
  }

  lemma AlignSmall(y: UInt32)
    ensures AlignUp8(y) == RoundUp8(y) % TWO_32
  {
    if y > UINT32_MAX - 7 {
      assert RoundUp8(y) == TWO_32;
    } else {
      assert (y + 7) % TWO_32 == y + 7;
    }
  }

  lemma AlignWraps(y: nat)
    requires y < 2 * TWO_32
    ensures AlignUp8(y % TWO_32) == RoundUp8(y) % TWO_32
  {
    hide RoundUp8, AlignUp8;
    if y >= TWO_32 {
      var x := y - TWO_32;
      assert y % TWO_32 == x;
      RoundUpOnto(TWO_32, x);
      AlignSmall(x);
      WrapOnce(TWO_32, RoundUp8(x));
    } else {
      AlignSmall(y);
    }
  }

  /** Adding a length and aligning, both in 32 bits, is adding the aligned length and wrapping. */
  lemma SizingStep(total: UInt32, sum: nat, size: UInt32)
    requires total % 8 == 0 && total == sum % TWO_32
    ensures AlignUp8((total + size) % TWO_32) == (sum + AlignUp8(size)) % TWO_32
    ensures AlignUp8((total + size) % TWO_32) % 8 == 0
  {
    hide RoundUp8, AlignUp8;
    AlignWraps(total + size);
    RoundUpOnto(total, size);
    AlignSmall(size);
    WrapOnce(sum, RoundUp8(size));
    WrapOnce(RoundUp8(size), sum);
  }

  lemma NoSpanCost(v: Variable, blanked: Blanked, known: map<Name, Bound>)
    requires !IsSpan(v.repr) || v.name in blanked || v.name !in known || PayloadOf(v.repr, known[v.name]).None?
    ensures SpanCost(v, blanked, known) == 0
  {
  }

  lemma SumOfPrefix(vars: seq<Variable>, i: nat, blanked: Blanked, known: map<Name, Bound>)
    requires i < |vars|
    ensures Total(SpanCosts(vars[..i + 1], blanked, known)) ==
      Total(SpanCosts(vars[..i], blanked, known)) + SpanCost(vars[i], blanked, known)
  {
    hide SpanCost;
    var s := SpanCosts(vars[..i + 1], blanked, known);
    assert s[..i] == SpanCosts(vars[..i], blanked, known);
  }

  /** What the sizing pass adds for a value it found: the length cut to 32 bits. */
  function Sized(repr: Repr, bound: Bound): UInt32 {
    if repr.StringRepr? && bound.kind == StringKind then Copied(|bound.payload|)
    else if repr.BytesRepr? && bound.kind == BytesKind then Copied(|bound.payload|)
    else if repr.TypeRepr? && bound.kind == TypeKind then Copied(|bound.payload|)
    else if repr.StringRepr? && bound.kind == MessageKind(StringWrapper) then Copied(|bound.payload|)
    else if repr.BytesRepr? && bound.kind == MessageKind(BytesWrapper) then Copied(|bound.payload|)
    else 0
  }

  /** Invariant of both passes about the memo and the binder log. */
  ghost predicate Orderly(vars: seq<Variable>, blanked: Blanked, cache: map<Name, Bound>, invoked: seq<Name>) {
    && Distinct(invoked)
    && (forall n :: n in invoked ==> n !in blanked && exists j :: 0 <= j < |vars| && vars[j].name == n)
  }

  lemma OrderlyStep(v: Variable, vars: seq<Variable>, blanked: Blanked, cache: map<Name, Bound>, invoked: seq<Name>,
                    cache': map<Name, Bound>, invoked': seq<Name>, failed: bool)
    requires v in vars && v.name !in blanked
    requires Orderly(vars, blanked, cache, invoked) && InStep(cache, invoked)
    requires Resolves(v.name, cache, invoked, cache', invoked', failed)
    ensures Orderly(vars, blanked, cache', invoked')
  {
  }

  /** One lookup, seen from the marshal: at most one more binder run, nothing known is lost, and what
      the first n variables cost stays put. */
  method Look(v: Variable, ghost vars: seq<Variable>, ghost n: nat, act: Activation, blanked: Blanked) returns (r: Resolution)
    requires act.Valid() && InStep(act.cache, act.invoked) && Orderly(vars, blanked, act.cache, act.invoked)
    requires v in vars && v.name !in blanked && Settled(vars, n, blanked, act.Known(), act.binders)
    modifies act`cache, act`invoked
    ensures act.Valid() && Orderly(vars, blanked, act.cache, act.invoked)
    ensures !r.Failed? ==> InStep(act.cache, act.invoked)
    ensures Grows(old(act.Known()), act.Known(), act.binders)
    ensures Settled(vars, n, blanked, act.Known(), act.binders)
    ensures SpanCosts(vars[..n], blanked, act.Known()) == SpanCosts(vars[..n], blanked, old(act.Known()))
    ensures Costs(vars[..n], blanked, act.Known()) == Costs(vars[..n], blanked, old(act.Known()))
    ensures r.Found? ==> v.name in act.Known() && act.Known()[v.name] == r.bound
    ensures r.Missing? ==> v.name !in act.Known() && v.name !in act.binders
    ensures r.Failed? ==> v.name in act.invoked && v.name in act.binders && v.name !in act.Known()
  {
    hide SpanCost, Cost, SpanCosts, Costs, Grows, Orderly, InStep, Settled;
    r := act.Resolve(v.name);
    assert Extends(old(act.cache), act.cache) && (!r.Failed? ==> InStep(act.cache, act.invoked));
    hide Resolves;
    OrderlyStep(v, vars, blanked, old(act.cache), old(act.invoked), act.cache, act.invoked, r.Failed?);
    KnownGrows(act.bindings, act.binders, old(act.cache), act.cache);
    CostsStable(vars, n, blanked, old(act.Known()), act.Known(), act.binders);
  }

  /** What each failure says about the variable at which it happened. */
  ghost predicate Blames(st: Status, v: Variable, blanked: Blanked, known: map<Name, Bound>, binders: map<Name, nat>,
                         invoked: seq<Name>, memorySize: nat)
  {
    match st
    case SlotOutOfRange => v.slot + CELL_BYTES > memorySize
    case BinderFailed => v.name !in blanked && v.name in invoked && v.name in binders && v.name !in known
    case NotBound => v.name !in blanked && v.name !in known && v.name !in binders
    case KindMismatch =>
      v.name !in blanked && v.name in known && !v.repr.UnbindableRepr? && !Fits(v.repr, known[v.name])
    case Overran =>
      && v.name !in blanked && v.name in known && PayloadOf(v.repr, known[v.name]).Some?
      && !Contained(|PayloadOf(v.repr, known[v.name]).value|)
    case NotBindable => v.name !in blanked && v.repr.UnbindableRepr?
    case _ => false
  }

  /** A failure has a variable to blame. */
  ghost predicate Blamed(st: Status, vars: seq<Variable>, blanked: Blanked, known: map<Name, Bound>,
                         binders: map<Name, nat>, invoked: seq<Name>, memorySize: nat)
  {
    exists v :: v in vars && Blames(st, v, blanked, known, binders, invoked, memorySize)
  }

  /** What a caller can see to: every slot in range, and for every variable that is not blanked a value of its
      own kind, a text of a length that stays inside its extent. */
  ghost predicate WellBound(vars: seq<Variable>, blanked: Blanked, values: map<Name, Bound>, memorySize: nat) {
    forall v :: v in vars ==>
      && v.slot + CELL_BYTES <= memorySize
      && (v.name !in blanked ==>
            && v.name in values && OwnRepr(values[v.name].kind) == Some(v.repr)
            && (IsSpan(v.repr) ==> Contained(|values[v.name].payload|)))
  }

  lemma OwnFits(r: Repr, b: Bound)
    requires OwnRepr(b.kind) == Some(r)
    ensures Fits(r, b) && !r.UnbindableRepr?
  {
  }

  /** Then there is nothing to blame, and the costs are known beforehand. */
  lemma WellBoundIsBlameless(st: Status, vars: seq<Variable>, blanked: Blanked, values: map<Name, Bound>,
                             known: map<Name, Bound>, binders: map<Name, nat>, invoked: seq<Name>, memorySize: nat)
    requires WellBound(vars, blanked, values, memorySize) && Extends(values, known)
    ensures !Blamed(st, vars, blanked, known, binders, invoked, memorySize)
    ensures Costs(vars, blanked, known) == Costs(vars, blanked, values)
  {
    hide Fits, PayloadOf, OwnRepr, Contained, Extent;
    forall v | v in vars
      ensures !Blames(st, v, blanked, known, binders, invoked, memorySize)
      ensures Cost(v, blanked, known) == Cost(v, blanked, values)
    {
      if v.name !in blanked {
        TextsArePayloads(v.repr, known[v.name]);
        OwnFits(v.repr, known[v.name]);
      }
    }
  }

  lemma CostIsSized(v: Variable, blanked: Blanked, known: map<Name, Bound>)
    requires v.name !in blanked && v.name in known
    ensures SpanCost(v, blanked, known) == AlignUp8(Sized(v.repr, known[v.name]))
  {
  }

  lemma SizingStart(vars: seq<Variable>, blanked: Blanked, known: map<Name, Bound>, binders: map<Name, nat>)
    ensures Total(SpanCosts(vars[..0], blanked, known)) == 0
    ensures Settled(vars, 0, blanked, known, binders)
    ensures Grows(known, known, binders)
  {
  }

  lemma SettledStep(vars: seq<Variable>, i: nat, blanked: Blanked, known: map<Name, Bound>, binders: map<Name, nat>)
    requires i < |vars| && Settled(vars, i, blanked, known, binders)
    requires IsSpan(vars[i].repr) && vars[i].name !in blanked ==> vars[i].name in known || vars[i].name !in binders
    ensures Settled(vars, i + 1, blanked, known, binders)
  {
  }

  method TotalHostStringBytes(vars: seq<Variable>, act: Activation, blanked: Blanked) returns (ok: bool, total: UInt32)
    requires act.Valid() && InStep(act.cache, act.invoked) && Orderly(vars, blanked, act.cache, act.invoked)
    modifies act`cache, act`invoked
    ensures act.Valid() && Orderly(vars, blanked, act.cache, act.invoked)
    ensures Grows(old(act.Known()), act.Known(), act.binders)
    ensures !ok ==> forall size ::
      Blamed(BinderFailed, vars, blanked, act.Known(), act.binders, act.invoked, size)
    ensures ok ==> InStep(act.cache, act.invoked)
    ensures ok ==> Settled(vars, |vars|, blanked, act.Known(), act.binders)
    ensures ok ==> total == Total(SpanCosts(vars, blanked, act.Known())) % TWO_32
  {
    hide SpanCost, Total, SpanCosts, Grows, Orderly, InStep, Resolves, Settled, Sized, PayloadOf, AlignUp8;
    total := 0;
    ok := true;
    var i: nat := 0;
    SizingStart(vars, blanked, act.Known(), act.binders);
    while i < |vars|
      invariant i <= |vars| && ok && act.Valid() && total % 8 == 0
      invariant InStep(act.cache, act.invoked) && Orderly(vars, blanked, act.cache, act.invoked)
      invariant Grows(old(act.Known()), act.Known(), act.binders)
      invariant Settled(vars, i, blanked, act.Known(), act.binders)
      invariant total == Total(SpanCosts(vars[..i], blanked, act.Known())) % TWO_32
    {
      var v := vars[i];
      if !IsSpan(v.repr) || v.name in blanked {
        NoSpanCost(v, blanked, act.Known());
        SettledStep(vars, i, blanked, act.Known(), act.binders);
        SumOfPrefix(vars, i, blanked, act.Known());
        i := i + 1;
        continue;
      }
      ghost var known := act.Known();
      var r := Look(v, vars, i, act, blanked);
      GrowsOnward(old(act.Known()), known, act.Known(), act.binders);
      if r.Failed? {
        ok := false;
        forall size
          ensures Blamed(BinderFailed, vars, blanked, act.Known(), act.binders, act.invoked, size)
        {
          assert Blames(BinderFailed, v, blanked, act.Known(), act.binders, act.invoked, size);
        }
        return;
      }
      SettledStep(vars, i, blanked, act.Known(), act.binders);
      SumOfPrefix(vars, i, blanked, act.Known());
      i := i + 1;
      if r.Missing? {
        NoSpanCost(v, blanked, act.Known());
        continue;
      }
      CostIsSized(v, blanked, act.Known());
      SizingStep(total, Total(SpanCosts(vars[..i - 1], blanked, act.Known())), Sized(v.repr, r.bound));
      total := AlignUp8((total + Sized(v.repr, r.bound)) % TWO_32);
    }
    assert vars[..i] == vars;
  }

  method CountUnknownVariables(vars: seq<Variable>, blanked: Blanked) returns (n: nat)
    ensures n == CountBlanked(vars, blanked)
  {
    n := 0;
    var i: nat := 0;
    while i < |vars|
      invariant i <= |vars| && n == CountBlanked(vars[..i], blanked)
    {
      if vars[i].name in blanked {
        n := n + 1;
      }
      assert vars[..i + 1][..i] == vars[..i];
      i := i + 1;
    }
    assert vars[..i] == vars;
  }

  // ---- the activation buffer and the writing pass ----

  /** `RoundUpTo4K`: a multiple of 4096 computed in 64 bits and cut to 32. */
  function RoundUpTo4K(n: UInt32): (r: UInt32)
    ensures r % 4096 == 0
    ensures n <= TWO_32 - 4096 ==> n <= r < n + 4096
    ensures n > TWO_32 - 4096 ==> r == 0
  {
    (n + 4095) / 4096 * 4096 % TWO_32
  }

  /** The instance: a budget of 2^32 - 8 bytes reserves nothing. */
  lemma LastPageReservesNothing(n: UInt32)
    ensures n == 0xFFFF_FFF8 ==> RoundUpTo4K(n) == 0
    ensures RoundUpTo4K(n) >= n <==> n <= TWO_32 - 4096
  {
  }

  /** `{ids offset, length}` followed by the one id. */
  predicate DescriptorAt(m: seq<Byte>, at: nat, id: UInt32) {
    at + 12 <= |m| && LoadU32(m, at) == at + 8 && LoadU32(m, at + 4) == 1 && LoadU32(m, at + 8) == id
  }

  predicate SpanAt(m: seq<Byte>, at: nat, p: seq<Byte>) {
    at + |p| <= |m| && m[at..at + |p|] == p
  }

  ghost predicate OnlyWithin(m: seq<Byte>, m': seq<Byte>, lo: nat, hi: nat) {
    |m| == |m'| && forall x :: 0 <= x < |m| && !(lo <= x < hi) ==> m[x] == m'[x]
  }

  /** What the writing pass leaves for a variable: a cell, and payload bytes or a descriptor at `at`. */
  ghost predicate CellHolds(cell: Cell, v: Variable, blanked: Blanked, known: map<Name, Bound>, m: seq<Byte>, at: nat) {
    v.slot + CELL_BYTES <= |m| &&
    if v.name in blanked then
      cell.UnknownCell? && cell.unk == at && DescriptorAt(m, at, blanked[v.name])
    else
      && v.name in known && Fits(v.repr, known[v.name])
      && if IsSpan(v.repr) then
           && var p := PayloadOf(v.repr, known[v.name]).value;
           && Contained(|p|) && Copied(|p|) <= |p|
           && cell == SpanCell(v.repr, at % TWO_32, Copied(|p|))
           && SpanAt(m, at, p[..Copied(|p|)])
         else
           cell == CellOf(v.repr, known[v.name])
  }

  /** A blanked variable's cell denotes the set of its one attribute id, as the kernels read it. */
  lemma BlankedMeansItsId(cell: Cell, v: Variable, blanked: Blanked, known: map<Name, Bound>, m: seq<Byte>, at: nat)
    requires CellHolds(cell, v, blanked, known, m, at) && v.name in blanked && at > 0
    ensures Meaning(Unknown(cell.unk), m) == ThreeValued.Unk({blanked[v.name]})
  {
    hide LoadU32;
    var ids := ReadIds(m, at + 8, 1);
    assert ids == [blanked[v.name]];
    assert SetOf(ids) == {blanked[v.name]};
  }

  /** Later writes behind the variable's extent, and later lookups, leave its cell as it is. */
  lemma CellKept(cell: Cell, v: Variable, blanked: Blanked, at: nat,
                 known: map<Name, Bound>, m: seq<Byte>, known': map<Name, Bound>, m': seq<Byte>)
    requires CellHolds(cell, v, blanked, known, m, at) && Extends(known, known')
    requires |m| == |m'| && forall x :: at <= x < at + Cost(v, blanked, known) && x < |m| ==> m[x] == m'[x]
    ensures CellHolds(cell, v, blanked, known', m', at)
  {
    hide LoadU32;
    if v.name in blanked {
      LoadFrame(m, m', at);
      LoadFrame(m, m', at + 4);
      LoadFrame(m, m', at + 8);
    } else if IsSpan(v.repr) {
      var p := PayloadOf(v.repr, known[v.name]).value;
      CopyStaysInside(|p|);
      assert m'[at..at + Copied(|p|)] == m[at..at + Copied(|p|)];
    }
  }

  /** Outcome of encoding a text: mismatched kinds, no room, a copy past its extent, or the
      payload at the cursor. */
  ghost predicate EncodedSpan(v: Variable, bound: Bound, floor: nat, capacity: nat, cursor: nat,
                              st: Status, cell: Cell, cursor': nat, m: seq<Byte>, m': seq<Byte>)
  {
    var p := PayloadOf(v.repr, bound);
    && (p.None? <==> st == KindMismatch)
    && (p.Some? ==> st in {Done, OutOfSpace, Overran})
    && (p.Some? ==> (st == OutOfSpace <==> cursor + Extent(|p.value|) > capacity))
    && (p.Some? ==> (st == Overran <==> !Contained(|p.value|)))
    && (st == Done ==>
          && p.Some? && cursor' == cursor + Extent(|p.value|) && Copied(|p.value|) <= |p.value|
          && cell == SpanCell(v.repr, (floor + cursor) % TWO_32, Copied(|p.value|))
          && SpanAt(m', floor + cursor, p.value[..Copied(|p.value|)]))
    && (st != Done ==> cursor' == cursor)
    && (st != Overran ==> OnlyWithin(m, m', floor + cursor, floor + cursor'))
  }

  /** What one variable's turn must achieve. */
  ghost predicate Turn(v: Variable, blanked: Blanked, known: map<Name, Bound>, floor: nat, capacity: nat, cursor: nat,
                       st: Status, cell: Cell, cursor': nat, m: seq<Byte>, m': seq<Byte>)
  {
    && (st == Done ==> cursor' == cursor + Cost(v, blanked, known) <= capacity)
    && (st == Done ==> CellHolds(cell, v, blanked, known, m', floor + cursor))
    && (st == Done ==> OnlyWithin(m, m', floor + cursor, floor + cursor'))
    && (st == OutOfSpace ==> capacity < cursor + Cost(v, blanked, known))
  }

  lemma CostOf(v: Variable, blanked: Blanked, known: map<Name, Bound>)
    requires v.name !in blanked && v.name in known
    ensures var p := PayloadOf(v.repr, known[v.name]); Cost(v, blanked, known) == if p.Some? then Extent(|p.value|) else 0
    ensures !IsSpan(v.repr) ==> PayloadOf(v.repr, known[v.name]).None?
  {
  }

  lemma SpanTurn(v: Variable, bound: Bound, blanked: Blanked, known: map<Name, Bound>, floor: nat, capacity: nat, cursor: nat,
                 st: Status, cell: Cell, cursor': nat, m: seq<Byte>, m': seq<Byte>)
    requires IsSpan(v.repr) && v.name !in blanked && v.name in known && known[v.name] == bound
    requires EncodedSpan(v, bound, floor, capacity, cursor, st, cell, cursor', m, m') && v.slot + CELL_BYTES <= |m'|
    ensures Turn(v, blanked, known, floor, capacity, cursor, st, cell, cursor', m, m')
  {
    hide PayloadOf, Extent, SpanAt, OnlyWithin;
    CostOf(v, blanked, known);
  }

  lemma OverrunBlames(v: Variable, bound: Bound, floor: nat, capacity: nat, cursor: nat,
                      st: Status, cell: Cell, cursor': nat, m: seq<Byte>, m': seq<Byte>)
    requires EncodedSpan(v, bound, floor, capacity, cursor, st, cell, cursor', m, m') && st == Overran
    ensures PayloadOf(v.repr, bound).Some? && !Contained(|PayloadOf(v.repr, bound).value|)
  {
  }

  lemma InlineTurn(v: Variable, bound: Bound, blanked: Blanked, known: map<Name, Bound>, floor: nat, capacity: nat, cursor: nat,
                   st: Status, cell: Cell, m: seq<Byte>)
    requires !IsSpan(v.repr) && v.name !in blanked && v.name in known && known[v.name] == bound
    requires st != OutOfSpace && cursor <= capacity && v.slot + CELL_BYTES <= |m|
    requires st == Done ==> Fits(v.repr, bound) && cell == CellOf(v.repr, bound)
    ensures Turn(v, blanked, known, floor, capacity, cursor, st, cell, cursor, m, m)
  {
    CostOf(v, blanked, known);
  }

  lemma BlankedTurn(v: Variable, blanked: Blanked, known: map<Name, Bound>, floor: nat, capacity: nat, cursor: nat,
                    st: Status, cell: Cell, cursor': nat, m: seq<Byte>, m': seq<Byte>)
    requires v.slot + CELL_BYTES <= |m'|
    requires v.name in blanked && st in {Done, OutOfSpace} && (st == OutOfSpace <==> cursor + 16 > capacity)
    requires st == Done ==> cursor' == cursor + 16 && cell.UnknownCell? && cell.unk == floor + cursor
    requires st == Done ==> DescriptorAt(m', floor + cursor, blanked[v.name])
    requires OnlyWithin(m, m', floor + cursor, floor + cursor')
    ensures Turn(v, blanked, known, floor, capacity, cursor, st, cell, cursor', m, m')
  {
    hide DescriptorAt, OnlyWithin;
  }

  /** The first |cells| variables hold what they should, each at its start. */
  ghost predicate AllHold(cells: seq<Cell>, vars: seq<Variable>, blanked: Blanked, known: map<Name, Bound>,
                          m: seq<Byte>, floor: nat, costs: seq<nat>)
  {
    && |cells| <= |vars| == |costs|
    && forall i :: 0 <= i < |cells| ==> CellHolds(cells[i], vars[i], blanked, known, m, floor + Start(costs, i))
  }

  lemma NothingRan(vars: seq<Variable>, blanked: Blanked, cache: map<Name, Bound>)
    ensures Orderly(vars, blanked, cache, [])
  {
  }

  lemma NothingYet(vars: seq<Variable>, blanked: Blanked, known: map<Name, Bound>, m: seq<Byte>, floor: nat, costs: seq<nat>)
    requires |costs| == |vars|
    ensures AllHold([], vars, blanked, known, m, floor, costs) && Start(costs, 0) == 0
  {
  }

  lemma WholeStart(costs: seq<nat>)
    ensures Start(costs, |costs|) == Total(costs)
  {
    assert costs[..|costs|] == costs;
  }

  lemma WrapBoth(a: nat, b: nat)
    ensures (a % TWO_32 + b % TWO_32) % TWO_32 == (a + b) % TWO_32
  {
    WrapOnce(a, b % TWO_32);
    WrapOnce(b, a);
  }

  lemma CostAt(vars: seq<Variable>, blanked: Blanked, known: map<Name, Bound>, i: nat)
    requires i < |vars|
    ensures |Costs(vars, blanked, known)| == |vars| && Costs(vars, blanked, known)[i] == Cost(vars[i], blanked, known)
  {
  }

  lemma HoldsOneMore(cells: seq<Cell>, cell: Cell, vars: seq<Variable>, blanked: Blanked, known: map<Name, Bound>, m: seq<Byte>,
                     known': map<Name, Bound>, m': seq<Byte>, floor: nat, costs: seq<nat>, binders: map<Name, nat>)
    requires |cells| < |vars| && AllHold(cells, vars, blanked, known, m, floor, costs)
    requires costs == Costs(vars, blanked, known) && Grows(known, known', binders)
    requires CellHolds(cell, vars[|cells|], blanked, known', m', floor + Start(costs, |cells|))
    requires OnlyWithin(m, m', floor + Start(costs, |cells|), floor + Start(costs, |cells| + 1))
    ensures AllHold(cells + [cell], vars, blanked, known', m', floor, costs)
  {
    hide CellHolds, Cost, Total;
    var i := |cells|;
    forall j | 0 <= j < i ensures CellHolds(cells[j], vars[j], blanked, known', m', floor + Start(costs, j)) {
      ExtentsApart(costs, j, i);
      CostAt(vars, blanked, known, j);
      CellKept(cells[j], vars[j], blanked, floor + Start(costs, j), known, m, known', m');
    }
  }

  lemma GrowsNowhere(known: map<Name, Bound>, binders: map<Name, nat>)
    ensures Grows(known, known, binders)
  {
  }

  class Instance {
    const memory: array<Byte>
    const heap: Heap
    var bufOffset: UInt32
    var bufCapacity: UInt32

    ghost predicate Valid()
      reads this, heap
    {
      && heap.Valid() && heap.size == memory.Length <= TWO_32
      && bufOffset + bufCapacity <= memory.Length && bufCapacity % 4096 == 0
      && (bufCapacity > 0 ==> bufOffset > 0 && Buffer() in heap.blocks)
    }

    ghost function Buffer(): Block
      reads this
    {
      MallocBlock(bufOffset, bufCapacity)
    }

    constructor (memory: array<Byte>, heap: Heap)
      requires heap.Valid() && heap.size == memory.Length
      ensures this.memory == memory && this.heap == heap
      ensures Valid() && bufOffset == bufCapacity == 0
    {
      this.memory, this.heap := memory, heap;
      bufOffset, bufCapacity := 0, 0;
    }

    /** A buffer that is too small is replaced, and left allocated. A success leaves enough room,
        unless rounding to whole pages overflowed 32 bits. */
    method EnsureActivationBuffer(needed: UInt32) returns (ok: bool)
      requires Valid()
      modifies this, heap
      ensures Valid()
      ensures needed <= old(bufCapacity) ==> ok && bufOffset == old(bufOffset) && bufCapacity == old(bufCapacity)
      ensures needed > old(bufCapacity) && ok ==> bufCapacity == RoundUpTo4K(needed)
      ensures ok && needed <= TWO_32 - 4096 ==> needed <= bufCapacity
      ensures old(heap.blocks) <= heap.blocks
      ensures Buffer() == old(Buffer()) || (ok && Buffer() !in old(heap.blocks))
      ensures !ok ==> heap.refused > old(heap.refused)
    {
      if needed <= bufCapacity {
        return true;
      }
      var capacity := RoundUpTo4K(needed);
      var p := heap.Malloc(capacity);
      if p == 0 {
        return false;
      }
      bufOffset, bufCapacity := p, capacity;
      assert MallocBlock(p, capacity) in heap.blocks;
      ok := true;
    }

    /** The shared tail of the text encoders. */
    method PlaceSpan(payload: seq<Byte>, cursor: nat) returns (st: Status, ptr: UInt32, cursor': nat)
      requires Valid() && cursor <= bufCapacity
      modifies memory
      ensures st in {Done, OutOfSpace, Overran}
      ensures st == OutOfSpace <==> cursor + Extent(|payload|) > bufCapacity
      ensures st == Overran <==> !Contained(|payload|)
      ensures st == Done ==> cursor' == cursor + Extent(|payload|) && ptr == (bufOffset + cursor) % TWO_32
      ensures st == Done ==> Copied(|payload|) <= |payload|
      ensures st == Done ==> SpanAt(memory[..], bufOffset + cursor, payload[..Copied(|payload|)])
      ensures st != Done ==> cursor' == cursor
      ensures st != Overran ==> OnlyWithin(old(memory[..]), memory[..], bufOffset + cursor, bufOffset + cursor')
    {
      ptr, cursor' := 0, cursor;
      CopyStaysInside(|payload|);
      WholeTextArrives(payload);
      var len := Copied(|payload|);
      var aligned := AlignUp8(len);
      assert aligned == Extent(|payload|) && len == Copied(|payload|);
      hide AlignUp8, Copied, Extent, Contained;
      if cursor + aligned > bufCapacity {
        return OutOfSpace, ptr, cursor';
      }
      if len > aligned {
        return Overran, ptr, cursor';
      }
      var at := bufOffset + cursor;
      forall k | 0 <= k < len {
        memory[at + k] := payload[k];
      }
      cursor' := cursor + aligned;
      ptr := at % TWO_32;
      st := Done;
    }

    method EncodeStringOrBytes(v: Variable, bound: Bound, cursor: nat) returns (st: Status, cell: Cell, cursor': nat)
      requires Valid() && cursor <= bufCapacity && (v.repr.StringRepr? || v.repr.BytesRepr?)
      modifies memory
      ensures EncodedSpan(v, bound, bufOffset, bufCapacity, cursor, st, cell, cursor', old(memory[..]), memory[..])
    {
      hide Extent, Copied, Contained, SpanAt;
      cell, cursor' := NullCell, cursor;
      var wrapped := MessageKind(if v.repr.StringRepr? then StringWrapper else BytesWrapper);
      if bound.kind != wrapped {
        var expected := if v.repr.StringRepr? then StringKind else BytesKind;
        if bound.kind != expected {
          return KindMismatch, cell, cursor';
        }
      }
      var ptr;
      st, ptr, cursor' := PlaceSpan(bound.payload, cursor);
      cell := SpanCell(v.repr, ptr, Copied(|bound.payload|));
    }

    method EncodeType(v: Variable, bound: Bound, cursor: nat) returns (st: Status, cell: Cell, cursor': nat)
      requires Valid() && cursor <= bufCapacity && v.repr.TypeRepr?
      modifies memory
      ensures EncodedSpan(v, bound, bufOffset, bufCapacity, cursor, st, cell, cursor', old(memory[..]), memory[..])
    {
      hide Extent, Copied, Contained, SpanAt;
      cell, cursor' := NullCell, cursor;
      if bound.kind != TypeKind {
        return KindMismatch, cell, cursor';
      }
      var ptr;
      st, ptr, cursor' := PlaceSpan(bound.payload, cursor);
      cell := SpanCell(v.repr, ptr, Copied(|bound.payload|));
    }

    /** The encoders of the four scalars: null first, then the wrapper message, then the kind itself. */
    method EncodeScalar(r: Repr, bound: Bound, wrapper: Message, expected: Kind) returns (st: Status, cell: Cell)
      requires || (r == BoolRepr && wrapper == BoolWrapper && expected == BoolKind)
               || (r == IntRepr && wrapper == IntWrapper && expected == IntKind)
               || (r == UintRepr && wrapper == UintWrapper && expected == UintKind)
               || (r == DoubleRepr && wrapper == DoubleWrapper && expected == DoubleKind)
      ensures st == if Fits(r, bound) then Done else KindMismatch
      ensures st == Done ==> cell == CellOf(r, bound)
    {
      if bound.kind == NullKind {
        return Done, NullCell;
      }
      cell := InlineCell(r, bound);
      if bound.kind == MessageKind(wrapper) {
        return Done, cell;
      }
      st := if bound.kind != expected then KindMismatch else Done;
    }

    /** Durations and timestamps: the message first, then the kind itself. */
    method EncodeTime(r: Repr, bound: Bound) returns (st: Status, cell: Cell)
      requires r.DurationRepr? || r.TimestampRepr?
      ensures st == if Fits(r, bound) then Done else KindMismatch
      ensures st == Done ==> cell == CellOf(r, bound)
    {
      cell := InlineCell(r, bound);
      if bound.kind == MessageKind(if r.DurationRepr? then DurationMessage else TimestampMessage) {
        return Done, cell;
      }
      st := if bound.kind != (if r.DurationRepr? then DurationKind else TimestampKind) then KindMismatch else Done;
    }

    method EncodeUnknownVariable(id: UInt32, cursor: nat) returns (st: Status, cell: Cell, cursor': nat)
      requires Valid() && cursor <= bufCapacity
      modifies memory
      ensures st in {Done, OutOfSpace} && (st == OutOfSpace <==> cursor + 16 > bufCapacity)
      ensures st == Done ==> cursor' == cursor + 16
      ensures st == Done ==> cell.UnknownCell? && cell.unk == bufOffset + cursor
      ensures st == Done ==> DescriptorAt(memory[..], bufOffset + cursor, id)
      ensures st != Done ==> cursor' == cursor
      ensures OnlyWithin(old(memory[..]), memory[..], bufOffset + cursor, bufOffset + cursor')
    {
      hide LoadU32;
      cell, cursor' := NullCell, cursor;
      if cursor + DESCRIPTOR_BYTES > bufCapacity {
        return OutOfSpace, cell, cursor';
      }
      var at := bufOffset + cursor;
      StoreU32(memory, at, at + 8);
      ghost var one := memory[..];
      StoreU32(memory, at + 4, 1);
      ghost var two := memory[..];
      LoadFrame(one, two, at);
      StoreU32(memory, at + 8, id);
      LoadFrame(two, memory[..], at);
      LoadFrame(two, memory[..], at + 4);
      cursor' := cursor + DESCRIPTOR_BYTES;
      cell := UnknownCell(at);
      st := Done;
    }

    /** Dispatch on the declared representation. */
    method EncodeBoundValue(v: Variable, bound: Bound, cursor: nat) returns (st: Status, cell: Cell, cursor': nat)
      requires Valid() && cursor <= bufCapacity
      modifies memory
      ensures IsSpan(v.repr) ==>
        EncodedSpan(v, bound, bufOffset, bufCapacity, cursor, st, cell, cursor', old(memory[..]), memory[..])
      ensures !IsSpan(v.repr) ==> memory[..] == old(memory[..]) && cursor' == cursor
      ensures !IsSpan(v.repr) ==>
        st == if v.repr.UnbindableRepr? then NotBindable else if Fits(v.repr, bound) then Done else KindMismatch
      ensures !IsSpan(v.repr) && st == Done ==> cell == CellOf(v.repr, bound)
      ensures st in {Done, OutOfSpace, Overran, KindMismatch, NotBindable}
      ensures st == KindMismatch ==> !Fits(v.repr, bound) && !v.repr.UnbindableRepr?
      ensures st == NotBindable ==> v.repr.UnbindableRepr?
    {
      hide Extent, Copied, Contained, SpanAt, OnlyWithin;
      cell, cursor' := NullCell, cursor;
      match v.repr
      case StringRepr =>
        st, cell, cursor' := EncodeStringOrBytes(v, bound, cursor);
      case BytesRepr =>
        st, cell, cursor' := EncodeStringOrBytes(v, bound, cursor);
      case TypeRepr =>
        st, cell, cursor' := EncodeType(v, bound, cursor);
      case BoolRepr =>
        st, cell := EncodeScalar(BoolRepr, bound, BoolWrapper, BoolKind);
      case IntRepr =>
        st, cell := EncodeScalar(IntRepr, bound, IntWrapper, IntKind);
      case UintRepr =>
        st, cell := EncodeScalar(UintRepr, bound, UintWrapper, UintKind);
      case DoubleRepr =>
        st, cell := EncodeScalar(DoubleRepr, bound, DoubleWrapper, DoubleKind);
      case DurationRepr =>
        st, cell := EncodeTime(DurationRepr, bound);
      case TimestampRepr =>
        st, cell := EncodeTime(TimestampRepr, bound);
      case MessageRepr =>
        st, cell := if bound.kind.MessageKind? then Done else KindMismatch, InlineCell(v.repr, bound);
      case ListRepr =>
        st, cell := if bound.kind == ListKind then Done else KindMismatch, InlineCell(v.repr, bound);
      case MapRepr =>
        st, cell := if bound.kind == MapKind then Done else KindMismatch, InlineCell(v.repr, bound);
      case UnbindableRepr =>
        st := NotBindable;
    }

    method EncodeKnown(v: Variable, bound: Bound, ghost blanked: Blanked, ghost known: map<Name, Bound>,
                       ghost binders: map<Name, nat>, ghost invoked: seq<Name>, cursor: nat)
      returns (st: Status, cell: Cell, cursor': nat)
      requires Valid() && cursor <= bufCapacity && v.slot + CELL_BYTES <= memory.Length
      requires v.name !in blanked && v.name in known && known[v.name] == bound
      modifies memory
      ensures Turn(v, blanked, known, bufOffset, bufCapacity, cursor, st, cell, cursor', old(memory[..]), memory[..])
      ensures st !in {Done, OutOfSpace} ==> Blames(st, v, blanked, known, binders, invoked, memory.Length)
    {
      hide Extent, PayloadOf, Fits, Cost, CellHolds, CellOf, OnlyWithin, EncodedSpan, Contained, Turn;
      st, cell, cursor' := EncodeBoundValue(v, bound, cursor);
      if IsSpan(v.repr) {
        SpanTurn(v, bound, blanked, known, bufOffset, bufCapacity, cursor, st, cell, cursor', old(memory[..]), memory[..]);
        if st == Overran {
          OverrunBlames(v, bound, bufOffset, bufCapacity, cursor, st, cell, cursor', old(memory[..]), memory[..]);
        }
      } else {
        InlineTurn(v, bound, blanked, known, bufOffset, bufCapacity, cursor, st, cell, memory[..]);
      }
    }

    /** One variable: it consumes exactly its cost, or reports that the cost does not fit, or fails for
        a reason that has nothing to do with space. */
    method MarshalOneVariable(v: Variable, ghost vars: seq<Variable>, act: Activation, blanked: Blanked, cursor: nat)
      returns (st: Status, cell: Cell, cursor': nat)
      requires Valid() && cursor <= bufCapacity && v in vars
      requires act.Valid() && InStep(act.cache, act.invoked) && Orderly(vars, blanked, act.cache, act.invoked)
      requires Settled(vars, |vars|, blanked, act.Known(), act.binders)
      modifies memory, act`cache, act`invoked
      ensures act.Valid() && Orderly(vars, blanked, act.cache, act.invoked)
      ensures st == Done ==> InStep(act.cache, act.invoked)
      ensures Grows(old(act.Known()), act.Known(), act.binders)
      ensures Settled(vars, |vars|, blanked, act.Known(), act.binders)
      ensures Costs(vars, blanked, act.Known()) == Costs(vars, blanked, old(act.Known()))
      ensures Turn(v, blanked, act.Known(), bufOffset, bufCapacity, cursor, st, cell, cursor', old(memory[..]), memory[..])
      ensures st !in {Done, OutOfSpace} ==>
        Blames(st, v, blanked, act.Known(), act.binders, act.invoked, memory.Length)
    {
      hide Fits, PayloadOf, Contained, Orderly, InStep, Settled, Costs, SpanCosts, DescriptorAt, Grows;
      hide Cost, CellHolds, OnlyWithin;
      GrowsNowhere(act.Known(), act.binders);
      cell, cursor' := NullCell, cursor;
      if v.slot + CELL_BYTES > memory.Length {
        return SlotOutOfRange, cell, cursor';
      }
      if v.name in blanked {
        st, cell, cursor' := EncodeUnknownVariable(blanked[v.name], cursor);
        BlankedTurn(v, blanked, act.Known(), bufOffset, bufCapacity, cursor, st, cell, cursor', old(memory[..]), memory[..]);
        return;
      }
      assert vars[..|vars|] == vars;
      var r := Look(v, vars, |vars|, act, blanked);
      if r.Failed? {
        return BinderFailed, cell, cursor';
      }
      if r.Missing? {
        return NotBound, cell, cursor';
      }
      st, cell, cursor' := EncodeKnown(v, r.bound, blanked, act.Known(), act.binders, act.invoked, cursor);
    }

    /** The writing pass. */
    method WriteAll(vars: seq<Variable>, act: Activation, blanked: Blanked)
      returns (st: Status, cells: seq<Cell>, cursor: nat)
      requires Valid() && act.Valid() && InStep(act.cache, act.invoked) && Orderly(vars, blanked, act.cache, act.invoked)
      requires Settled(vars, |vars|, blanked, act.Known(), act.binders)
      modifies memory, act`cache, act`invoked
      ensures act.Valid() && Orderly(vars, blanked, act.cache, act.invoked)
      ensures Costs(vars, blanked, act.Known()) == Costs(vars, blanked, old(act.Known()))
      ensures st == Done ==> cursor == Total(Costs(vars, blanked, act.Known())) <= bufCapacity && |cells| == |vars|
      ensures st == Done ==> AllHold(cells, vars, blanked, act.Known(), memory[..], bufOffset, Costs(vars, blanked, act.Known()))
      ensures st == OutOfSpace ==> bufCapacity < Total(Costs(vars, blanked, act.Known()))
      ensures st != MallocFailed
      ensures st !in {Done, OutOfSpace} ==>
        Blamed(st, vars, blanked, act.Known(), act.binders, act.invoked, memory.Length)
    {
      hide Orderly, InStep, Settled, Costs, SpanCosts, Cost, SpanCost, Grows, CellHolds, AllHold, Total, OnlyWithin;
      cells, cursor := [], 0;
      ghost var costs := Costs(vars, blanked, act.Known());
      var i: nat := 0;
      NothingYet(vars, blanked, act.Known(), memory[..], bufOffset, costs);
      while i < |vars|
        invariant i <= |vars| && Valid() && act.Valid()
        invariant InStep(act.cache, act.invoked) && Orderly(vars, blanked, act.cache, act.invoked)
        invariant Settled(vars, |vars|, blanked, act.Known(), act.binders)
        invariant Costs(vars, blanked, act.Known()) == costs
        invariant cursor == Start(costs, i) <= bufCapacity
        invariant |cells| == i && AllHold(cells, vars, blanked, act.Known(), memory[..], bufOffset, costs)
      {
        ghost var known, m := act.Known(), memory[..];
        var cell, next;
        st, cell, next := MarshalOneVariable(vars[i], vars, act, blanked, cursor);
        CostAt(vars, blanked, act.Known(), i);
        ExtentsApart(costs, i, |costs|);
        if st != Done {
          return;
        }
        StartStep(costs, i);
        HoldsOneMore(cells, cell, vars, blanked, known, m, act.Known(), memory[..], bufOffset, costs, act.binders);
        cells := cells + [cell];
        cursor := next;
        i := i + 1;
      }
      WholeStart(costs);
      st := Done;
    }

    /** The sizing pass and the reservation. */
    method Reserve(vars: seq<Variable>, act: Activation, blanked: Blanked) returns (st: Status, need: UInt32)
      requires Valid() && act.Valid() && InStep(act.cache, act.invoked) && Orderly(vars, blanked, act.cache, act.invoked)
      modifies this, heap, act`cache, act`invoked
      ensures Valid() && act.Valid() && Orderly(vars, blanked, act.cache, act.invoked)
      ensures st in {Done, BinderFailed, MallocFailed}
      ensures st == BinderFailed ==>
        Blamed(st, vars, blanked, act.Known(), act.binders, act.invoked, memory.Length)
      ensures st == MallocFailed ==> heap.refused > old(heap.refused)
      ensures st == Done ==> InStep(act.cache, act.invoked) && Settled(vars, |vars|, blanked, act.Known(), act.binders)
      ensures st == Done ==> need == Total(Costs(vars, blanked, act.Known())) % TWO_32
      ensures st == Done && need <= TWO_32 - 4096 ==> need <= bufCapacity
      ensures old(heap.blocks) <= heap.blocks
      ensures Buffer() == old(Buffer()) || Buffer() !in old(heap.blocks)
    {
      hide Orderly, InStep, Settled, Costs, SpanCosts, Cost, SpanCost, Grows, Total, CountBlanked, RoundUpTo4K, Blamed;
      need := 0;
      var ok, stringBytes := TotalHostStringBytes(vars, act, blanked);
      if !ok {
        return BinderFailed, need;
      }
      var unknowns := CountUnknownVariables(vars, blanked);
      need := (stringBytes + DESCRIPTOR_BYTES * unknowns % TWO_32) % TWO_32;
      BudgetSplits(vars, blanked, act.Known());
      WrapBoth(Total(SpanCosts(vars, blanked, act.Known())), 16 * unknowns);
      if need > 0 {
        var grown := EnsureActivationBuffer(need);
        if !grown {
          return MallocFailed, need;
        }
      }
      st := Done;
    }

    /** The whole marshal. When it succeeds the cursor has used up exactly the budget of the sizing
        pass and every variable's payload lies in its own extent; no encoder runs out of space unless
        the true budget comes within a page of 4 GiB; and whatever the outcome, every binder ran at
        most once, and only for a declared variable that no pattern blanks. */
    method MarshalActivation(vars: seq<Variable>, act: Activation, blanked: Blanked)
      returns (st: Status, cells: seq<Cell>, need: UInt32, cursor: nat)
      requires Valid() && act.Valid()
      modifies this, heap, memory, act`cache, act`invoked
      ensures Valid() && act.Valid()
      ensures Orderly(vars, blanked, act.cache, act.invoked)
      ensures st == Done ==> need == cursor == Total(Costs(vars, blanked, act.Known())) <= bufCapacity
      ensures st == Done ==> Total(Costs(vars, blanked, act.Known())) <= TWO_32 - 4096
      ensures old(heap.blocks) <= heap.blocks
      ensures Buffer() == old(Buffer()) || Buffer() !in old(heap.blocks)
      ensures st == Done ==> |cells| == |vars|
      ensures st == Done ==> AllHold(cells, vars, blanked, act.Known(), memory[..], bufOffset, Costs(vars, blanked, act.Known()))
      ensures st == OutOfSpace ==> Total(Costs(vars, blanked, act.Known())) > TWO_32 - 4096
      ensures st == MallocFailed ==> heap.refused > old(heap.refused)
      ensures WellBound(vars, blanked, act.bindings, memory.Length) ==>
        Total(Costs(vars, blanked, act.bindings)) <= TWO_32 - 4096 ==> st in {Done, MallocFailed}
      ensures st !in {Done, OutOfSpace, MallocFailed} ==>
        Blamed(st, vars, blanked, act.Known(), act.binders, act.invoked, memory.Length)
    {
      hide Orderly, InStep, Settled, Costs, AllHold, Total, Blamed, WellBound;
      cells, need, cursor := [], 0, 0;
      act.ClearLazyCache();
      NothingRan(vars, blanked, act.cache);
      st, need := Reserve(vars, act, blanked);
      if st == Done {
        st, cells, cursor := WriteAll(vars, act, blanked);
      }
      if WellBound(vars, blanked, act.bindings, memory.Length) {
        WellBoundIsBlameless(st, vars, blanked, act.bindings, act.Known(), act.binders, act.invoked, memory.Length);
      }
    }
  }
}
