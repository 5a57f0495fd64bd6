/** Systems and what the code generated for a for-each system does: the
    accessors of its parameters, the mask of entities it visits, the values
    it binds for each of them, and how its replies end the iteration. */
module Systems {
  import opened Wrappers
  import opened Entities
  import opened Components
  import opened Storages
  import opened Joins
  import opened Store
  import opened Registry

  /** `Accessor`: how a system parameter is accessed. */
  datatype Accessor = ReadAccess | MutexAccess | RwLockAccess | WriteAccess | OptionAccess(inner: Accessor)

  /** The accessor under every `Option`. */
  function Base(a: Accessor): (r: Accessor)
    ensures !r.OptionAccess?
  {
    if a.OptionAccess? then Base(a.inner) else a
  }

  /** `is_mut`: only a read is immutable; an `Option` is as mutable as what
      it wraps. */
  function IsMut(a: Accessor): (r: bool)
    ensures r <==> !Base(a).ReadAccess?
  {
    match a
    case ReadAccess => false
    case MutexAccess => true
    case RwLockAccess => true
    case WriteAccess => true
    case OptionAccess(v) => IsMut(v)
  }

  /** `is_opt`: only a top-level `Option`, that is an accessor that is not
      its own base. */
  function IsOpt(a: Accessor): (r: bool)
    ensures r <==> Base(a) != a
  {
    a.OptionAccess?
  }

  /** How `wrapper_init` wraps the initialising expression. */
  datatype Wrapping = AsIs | Borrowed | BorrowedMut | InMutex | InRwLock

  /** `wrapper_init(content, bare)`: a read or write of `bare` content
      (system state, a resource) is borrowed, a component read is passed on
      as it is; Mutex and RwLock wrap it; an `Option` wraps as its inner
      accessor does. */
  function WrapperInit(a: Accessor, bare: bool): (r: Wrapping)
    ensures r == AsIs <==> !bare && (Base(a).ReadAccess? || Base(a).WriteAccess?)
    ensures r == Borrowed <==> bare && Base(a).ReadAccess?
    ensures r == BorrowedMut <==> bare && Base(a).WriteAccess?
    ensures r == InMutex <==> Base(a).MutexAccess?
    ensures r == InRwLock <==> Base(a).RwLockAccess?
  {
    match a
    case ReadAccess => if bare then Borrowed else AsIs
    case MutexAccess => InMutex
    case RwLockAccess => InRwLock
    case WriteAccess => if bare then BorrowedMut else AsIs
    case OptionAccess(v) => WrapperInit(v, bare)
  }

  /** An `Option` accessor initialises its value exactly as its base
      accessor does. */
  lemma {:induction false} OptionWrapsLikeBase(a: Accessor, bare: bool)
    ensures WrapperInit(OptionAccess(a), bare) == WrapperInit(a, bare) == WrapperInit(Base(a), bare)
    ensures IsMut(OptionAccess(a)) == IsMut(a) && IsOpt(OptionAccess(a))
    decreases a
  {
    if a.OptionAccess? {
      OptionWrapsLikeBase(a.inner, bare);
    }
  }

  /** `Element`: one parameter of a system's signature. */
  datatype SigElement =
    | StateParam(access: Accessor)
    | ComponentParam(access: Accessor, name: string)
    | ResourceParam(access: Accessor, name: string)
    | EntityParam
    | CommandBufferParam
    | ConstParam(code: string)

  /** The value bound for one parameter at one entity. */
  datatype Arg<T> =
    | StateArg(wrapping: Wrapping)
    | ResourceArg(resource: nat, wrapping: Wrapping)
    | Payload(wrapping: Wrapping, value: T)
    | MaybePayload(wrapping: Wrapping, opt: Option<T>)
    | EntityArg(entity: Entity)
    | ConstArg(code: string)

  /** A component parameter that restricts the visited entities. */
  predicate Required(el: SigElement) {
    el.ComponentParam? && !IsOpt(el.access)
  }

  /** The declared components, in the store's component order. */
  predicate Declares<T>(components: seq<Component>, s: State<T>) {
    Shaped(s) && |s.bits| == |components|
  }

  // ---------------------------------------------------------------------
  // Generating the code of a for-each system

  /** The panic of the mask loop of `make_run` at one element: a required
      component that is not declared. */
  function MaskFault(el: SigElement, components: seq<Component>): Option<Fault> {
    if Required(el) && FirstNamed(ComponentNames(components), el.name).None? then Some(UnknownComponent(el.name))
    else None
  }

  /** The panic of `Element::init` at one element: an undeclared resource or
      component, or a command buffer parameter (`todo!()`). */
  function ElementFault(el: SigElement, components: seq<Component>, resources: seq<Resource>): Option<Fault> {
    match el
    case ResourceParam(_, n) => if FirstNamed(ResourceNames(resources), n).None? then Some(UnknownResource(n)) else None
    case ComponentParam(_, n) => if FirstNamed(ComponentNames(components), n).None? then Some(UnknownComponent(n)) else None
    case CommandBufferParam => Some(Unimplemented)
    case _ => None
  }

  function MaskFaults(sig: seq<SigElement>, components: seq<Component>): seq<Option<Fault>> {
    seq(|sig|, k requires 0 <= k < |sig| => MaskFault(sig[k], components))
  }

  function ElementFaults(sig: seq<SigElement>, components: seq<Component>, resources: seq<Resource>): seq<Option<Fault>> {
    seq(|sig|, k requires 0 <= k < |sig| => ElementFault(sig[k], components, resources))
  }

  /** The first fault of a sequence of steps that may each panic. */
  function FirstFault(fs: seq<Option<Fault>>): Option<Fault>
    decreases |fs|
  {
    if fs == [] then None
    else if fs[0].Some? then fs[0]
    else FirstFault(fs[1..])
  }

  /** There is a first fault exactly when some step panics, and it is the
      fault of the first step that does. */
  lemma {:induction false} FirstFaultIsFirst(fs: seq<Option<Fault>>)
    ensures FirstFault(fs).None? <==> forall k :: 0 <= k < |fs| ==> fs[k].None?
    ensures forall k :: 0 <= k < |fs| && fs[k].Some? && (forall j :: 0 <= j < k ==> fs[j].None?) ==> FirstFault(fs) == fs[k]
    decreases |fs|
  {
    if fs != [] {
      FirstFaultIsFirst(fs[1..]);
      forall k | 1 <= k < |fs| ensures fs[1..][k - 1] == fs[k] { }
    }
  }

  predicate HasRequired(sig: seq<SigElement>) {
    exists k :: 0 <= k < |sig| && Required(sig[k])
  }

  /** What stops the code of a system from being generated: first a panic
      of the mask loop, then one of the initialisers in signature order,
      and last a mask with no component, whose emitted expression does not
      compile. */
  function GenFault(sig: seq<SigElement>, components: seq<Component>, resources: seq<Resource>): Option<Fault> {
    var m := FirstFault(MaskFaults(sig, components));
    if m.Some? then m
    else
      var e := FirstFault(ElementFaults(sig, components, resources));
      if e.Some? then e
      else if !HasRequired(sig) then Some(NoRequiredComponent)
      else None
  }

  /** The code of the system can be generated. */
  predicate Generable(sig: seq<SigElement>, components: seq<Component>, resources: seq<Resource>) {
    GenFault(sig, components, resources).None?
  }

  /** Code is generated exactly when every component and resource named is
      declared, no parameter is a command buffer, and some component
      parameter is required. */
  lemma GenerableIff(sig: seq<SigElement>, components: seq<Component>, resources: seq<Resource>)
    ensures Generable(sig, components, resources) <==>
      (forall k :: 0 <= k < |sig| ==> ElementFault(sig[k], components, resources).None?) && HasRequired(sig)
  {
    var ms, es := MaskFaults(sig, components), ElementFaults(sig, components, resources);
    FirstFaultIsFirst(ms);
    FirstFaultIsFirst(es);
    if forall k :: 0 <= k < |sig| ==> ElementFault(sig[k], components, resources).None? {
      forall k | 0 <= k < |sig| ensures ms[k].None? {
        assert es[k] == ElementFault(sig[k], components, resources);
        assert ms[k] == MaskFault(sig[k], components);
      }
      assert FirstFault(ms).None? && FirstFault(es).None?;
    }
    if Generable(sig, components, resources) {
      assert FirstFault(es).None?;
      forall k | 0 <= k < |sig| ensures ElementFault(sig[k], components, resources).None? {
        assert es[k] == ElementFault(sig[k], components, resources);
      }
    }
  }

  /** A resolved initialiser: what `Element::init` emits for one parameter,
      with the component or resource it reads found by name. */
  datatype Init =
    | InitState(wrapping: Wrapping)
    | InitResource(resource: nat, wrapping: Wrapping)
    | InitComponent(component: nat, optional: bool, wrapping: Wrapping)
    | InitEntity
    | InitConst(code: string)

  /** What `make_run` emits for a for-each system: the components whose
      bitsets are `BitSetAnd`-ed into the mask, in signature order, and one
      initialiser per parameter. */
  datatype Code = Code(mask: seq<nat>, inits: seq<Init>)

  /** The initialiser of an element that does not panic. */
  function Resolve(el: SigElement, components: seq<Component>, resources: seq<Resource>): (r: Init)
    requires ElementFault(el, components, resources).None?
    ensures r.InitComponent? ==> r.component < |components|
  {
    match el
    case StateParam(a) => InitState(WrapperInit(a, true))
    case ResourceParam(a, n) => InitResource(FirstNamed(ResourceNames(resources), n).value, WrapperInit(a, true))
    case ComponentParam(a, n) => InitComponent(FirstNamed(ComponentNames(components), n).value, IsOpt(a), WrapperInit(a, false))
    case EntityParam => InitEntity
    case ConstParam(code) => InitConst(code)
  }

  /** The components of the required parameters, in signature order. */
  function RequiredOf(sig: seq<SigElement>, components: seq<Component>): (r: seq<nat>)
    ensures forall k :: 0 <= k < |r| ==> r[k] < |components|
    decreases |sig|
  {
    if sig == [] then []
    else
      var el := sig[|sig| - 1];
      var c := FirstNamed(ComponentNames(components), if el.ComponentParam? then el.name else "");
      RequiredOf(sig[..|sig| - 1], components) + (if Required(el) && c.Some? then [c.value] else [])
  }

  /** The generated code reads only the declared components. */
  predicate CodeFits(code: Code, n: nat) {
    (forall k :: 0 <= k < |code.mask| ==> code.mask[k] < n)
    && forall k :: 0 <= k < |code.inits| && code.inits[k].InitComponent? ==> code.inits[k].component < n
  }

  /** The code generated for a signature that can be generated: its mask
      has a component, and it reads only declared components. */
  function CodeOf(sig: seq<SigElement>, components: seq<Component>, resources: seq<Resource>): (r: Code)
    requires Generable(sig, components, resources)
    ensures r.mask != [] && CodeFits(r, |components|) && |r.inits| == |sig|
  {
    GenerableIff(sig, components, resources);
    FirstFaultIsFirst(MaskFaults(sig, components));
    assert forall k :: 0 <= k < |sig| ==> MaskFaults(sig, components)[k] == MaskFault(sig[k], components);
    RequiredOfEmpty(sig, components);
    Code(RequiredOf(sig, components),
         seq(|sig|, k requires 0 <= k < |sig| && ElementFault(sig[k], components, resources).None? =>
                      Resolve(sig[k], components, resources)))
  }

  /** The mask loop of `make_run`: every required component parameter, in
      order, looked up by name; the first that is not declared panics. */
  method MaskComponents(sig: seq<SigElement>, components: seq<Component>) returns (r: Result<seq<nat>, Fault>)
    ensures r.Err? <==> FirstFault(MaskFaults(sig, components)).Some?
    ensures r.Err? ==> r.error == FirstFault(MaskFaults(sig, components)).value
    ensures r.Ok? ==> r.value == RequiredOf(sig, components)
  {
    ghost var ms := MaskFaults(sig, components);
    FirstFaultIsFirst(ms);
    var mask: seq<nat> := [];
    for k := 0 to |sig|
      invariant mask == RequiredOf(sig[..k], components)
      invariant forall j :: 0 <= j < k ==> ms[j].None?
    {
      assert sig[..k + 1][..k] == sig[..k];
      if sig[k].ComponentParam? && !IsOpt(sig[k].access) {
        var c := FindComponent(components, sig[k].name);
        if c.Err? {
          assert ms[k] == Some(c.error);
          return Err(c.error);
        }
        mask := mask + [c.value];
      } else {
        assert ms[k] == None;
      }
    }
    assert sig[..|sig|] == sig;
    r := Ok(mask);
  }

  /** The initialisers `make_run` emits, one per element in order; the
      first lookup that fails, or a command buffer parameter, panics. */
  method Initialisers(sig: seq<SigElement>, components: seq<Component>, resources: seq<Resource>)
    returns (r: Result<seq<Init>, Fault>)
    ensures r.Err? <==> FirstFault(ElementFaults(sig, components, resources)).Some?
    ensures r.Err? ==> r.error == FirstFault(ElementFaults(sig, components, resources)).value
    ensures r.Ok? ==> |r.value| == |sig| && forall k :: 0 <= k < |sig| ==>
      ElementFault(sig[k], components, resources).None? && r.value[k] == Resolve(sig[k], components, resources)
  {
    ghost var es := ElementFaults(sig, components, resources);
    FirstFaultIsFirst(es);
    var inits: seq<Init> := [];
    for k := 0 to |sig|
      invariant |inits| == k
      invariant forall j :: 0 <= j < k ==>
                  es[j].None? && ElementFault(sig[j], components, resources).None? && inits[j] == Resolve(sig[j], components, resources)
    {
      assert es[k] == ElementFault(sig[k], components, resources);
      match sig[k]
      case StateParam(a) =>
        inits := inits + [InitState(WrapperInit(a, true))];
      case ResourceParam(a, n) =>
        var res := FindResource(resources, n);
        if res.Err? {
          return Err(res.error);
        }
        inits := inits + [InitResource(res.value, WrapperInit(a, true))];
      case ComponentParam(a, n) =>
        var c := FindComponent(components, n);
        if c.Err? {
          return Err(c.error);
        }
        inits := inits + [InitComponent(c.value, IsOpt(a), WrapperInit(a, false))];
      case EntityParam =>
        inits := inits + [InitEntity];
      case CommandBufferParam =>
        return Err(Unimplemented);
      case ConstParam(code) =>
        inits := inits + [InitConst(code)];
    }
    r := Ok(inits);
  }

  /** `make_run` for a for-each system, as far as it runs while the code is
      generated: the mask loop, then the initialisers; a mask with no
      component is refused last, as its expression does not compile. */
  method Generate(sys: ForEachSystem, components: seq<Component>, resources: seq<Resource>)
    returns (r: Result<Code, Fault>)
    ensures r.Err? <==> !Generable(sys.signature, components, resources)
    ensures r.Err? ==> r.error == GenFault(sys.signature, components, resources).value
    ensures r.Ok? ==> r.value == CodeOf(sys.signature, components, resources)
  {
    var sig := sys.signature;
    var mask := MaskComponents(sig, components);
    if mask.Err? {
      return Err(mask.error);
    }
    var inits := Initialisers(sig, components, resources);
    if inits.Err? {
      return Err(inits.error);
    }
    FirstFaultIsFirst(MaskFaults(sig, components));
    assert forall k :: 0 <= k < |sig| ==> MaskFaults(sig, components)[k] == MaskFault(sig[k], components);
    RequiredOfEmpty(sig, components);
    if mask.value == [] {
      return Err(NoRequiredComponent);
    }
    r := Ok(Code(mask.value, inits.value));
  }

  /** Once every required component is declared, the mask has a component
      exactly when some parameter is required. */
  lemma {:induction false} RequiredOfEmpty(sig: seq<SigElement>, components: seq<Component>)
    requires forall k :: 0 <= k < |sig| ==> MaskFault(sig[k], components).None?
    ensures RequiredOf(sig, components) == [] <==> !HasRequired(sig)
    decreases |sig|
  {
    if sig != [] {
      var front := sig[..|sig| - 1];
      assert forall k :: 0 <= k < |front| ==> front[k] == sig[k];
      RequiredOfEmpty(front, components);
      if HasRequired(front) {
        var k :| 0 <= k < |front| && Required(front[k]);
        assert Required(sig[k]);
      }
    }
  }

  /** A signature naming an undeclared resource is refused while the code
      is generated, whatever the store will hold. */
  lemma UnknownResourceFailsGeneration()
    ensures GenFault([ComponentParam(ReadAccess, "c"), ResourceParam(ReadAccess, "nope")],
                     [Component("C", "c", Vec, None)], []) == Some(UnknownResource("nope"))
  {
    var sig := [ComponentParam(ReadAccess, "c"), ResourceParam(ReadAccess, "nope")];
    var cs := [Component("C", "c", Vec, None)];
    assert ComponentNames(cs) == ["c"];
    assert MaskFaults(sig, cs) == [None, None];
    assert ElementFaults(sig, cs, []) == [None, Some(UnknownResource("nope"))];
    assert FirstFault([None, Some(UnknownResource("nope"))]) == FirstFault([Some(UnknownResource("nope"))]);
  }

  // ---------------------------------------------------------------------
  // Running the generated code

  /** The generated initialiser at index `i`: state and resources are
      borrowed, a component is read from the store with the component's
      `read_function` (unwrapped unless the parameter is optional), the
      entity parameter is bound to the entity. Only a component read can
      panic. */
  function BindOne<T>(init: Init, s: State<T>, dflt: T, i: u32): (r: Result<Arg<T>, Fault>)
    requires Shaped(s) && (init.InitComponent? ==> init.component < |s.bits|)
    ensures r.Err? ==> init.InitComponent?
    ensures r.Ok? && init.InitComponent? ==>
      (if init.optional then r.value.MaybePayload? else r.value.Payload?) && r.value.wrapping == init.wrapping
    ensures init.InitEntity? ==> r == Ok(EntityArg(Entity(i)))
  {
    match init
    case InitState(w) => Ok(StateArg(w))
    case InitResource(k, w) => Ok(ResourceArg(k, w))
    case InitComponent(c, opt, w) =>
      if opt then
        (match ReadOptional(s.backends[c], i, i in s.bits[c], dflt)
         case Err(e) => Err(e)
         case Ok(o) => Ok(MaybePayload(w, o)))
      else
        (match Components.Read(s.backends[c], i, i in s.bits[c], dflt)
         case Err(e) => Err(e)
         case Ok(v) => Ok(Payload(w, v)))
    case InitEntity => Ok(EntityArg(Entity(i)))
    case InitConst(code) => Ok(ConstArg(code))
  }

  /** The initialisers of the whole signature, in order; the first one that
      panics ends the binding. */
  function Bind<T>(inits: seq<Init>, s: State<T>, dflt: T, i: u32): Result<seq<Arg<T>>, Fault>
    requires Shaped(s) && CodeFits(Code([], inits), |s.bits|)
    decreases |inits|
  {
    if inits == [] then Ok([])
    else
      match Bind(inits[..|inits| - 1], s, dflt, i)
      case Err(e) => Err(e)
      case Ok(front) =>
        match BindOne(inits[|inits| - 1], s, dflt, i)
        case Err(e) => Err(e)
        case Ok(a) => Ok(front + [a])
  }

  /** Binding succeeds exactly when every initialiser does, and then binds
      each parameter to what its own initialiser yields. */
  lemma {:induction false} BindIsPointwise<T>(inits: seq<Init>, s: State<T>, dflt: T, i: u32)
    requires Shaped(s) && CodeFits(Code([], inits), |s.bits|)
    ensures var r := Bind(inits, s, dflt, i);
      (r.Ok? <==> forall k :: 0 <= k < |inits| ==> BindOne(inits[k], s, dflt, i).Ok?)
      && (r.Ok? ==> |r.value| == |inits| && forall k :: 0 <= k < |inits| ==> r.value[k] == BindOne(inits[k], s, dflt, i).value)
    decreases |inits|
  {
    if inits != [] {
      var front := inits[..|inits| - 1];
      BindIsPointwise(front, s, dflt, i);
      assert forall k :: 0 <= k < |front| ==> front[k] == inits[k];
    }
  }

  /** Every bitset of a required component parameter holds `i`. */
  ghost predicate HoldsRequired(sig: seq<SigElement>, components: seq<Component>, bits: seq<set<u32>>, i: u32)
    requires |bits| == |components|
  {
    forall k :: 0 <= k < |sig| && Required(sig[k]) && FirstNamed(ComponentNames(components), sig[k].name).Some? ==>
      i in bits[FirstNamed(ComponentNames(components), sig[k].name).value]
  }

  /** Where the for-each loop can visit `i`: alive and holding every
      required component. */
  ghost predicate InForEach(sig: seq<SigElement>, components: seq<Component>, bits: seq<set<u32>>, alive: set<u32>, i: u32)
    requires |bits| == |components|
  {
    i in alive && HoldsRequired(sig, components, bits, i)
  }

  /** The bitsets of the mask components, each new one `BitSetAnd`-ed in
      front of the previous ones. */
  function Chain(mask: seq<nat>, bits: seq<set<u32>>): (m: BitMask)
    requires mask != [] && forall k :: 0 <= k < |mask| ==> mask[k] < |bits|
    decreases |mask|
  {
    if |mask| == 1 then Bits(bits[mask[0]])
    else Both(Bits(bits[mask[|mask| - 1]]), Chain(mask[..|mask| - 1], bits))
  }

  /** The mask expression `make_run` emits, evaluated: the chain of the
      component bitsets, `BitSetAnd`-ed with the alive set. */
  function MaskOf(mask: seq<nat>, bits: seq<set<u32>>, alive: set<u32>): BitMask
    requires mask != [] && forall k :: 0 <= k < |mask| ==> mask[k] < |bits|
  {
    Both(Chain(mask, bits), Bits(alive))
  }

  /** The chain holds an index exactly when every bitset of the mask does. */
  lemma {:induction false} ChainIsIntersection(mask: seq<nat>, bits: seq<set<u32>>, i: u32)
    requires mask != [] && forall k :: 0 <= k < |mask| ==> mask[k] < |bits|
    ensures Contains(Chain(mask, bits), i) <==> forall k :: 0 <= k < |mask| ==> i in bits[mask[k]]
    decreases |mask|
  {
    if |mask| > 1 {
      var front := mask[..|mask| - 1];
      ChainIsIntersection(front, bits, i);
      assert forall k :: 0 <= k < |front| ==> front[k] == mask[k];
    }
  }

  /** Every bitset of the listed components holds `i`. */
  predicate AllHold(mask: seq<nat>, bits: seq<set<u32>>, i: u32)
    requires forall k :: 0 <= k < |mask| ==> mask[k] < |bits|
  {
    forall k :: 0 <= k < |mask| ==> i in bits[mask[k]]
  }

  /** One more signature element: the required components so far, and the
      new element if it is required. */
  lemma HoldsRequiredSnoc(sig: seq<SigElement>, components: seq<Component>, bits: seq<set<u32>>, i: u32)
    requires |bits| == |components| && sig != []
    ensures var el := sig[|sig| - 1];
      var c := FirstNamed(ComponentNames(components), if el.ComponentParam? then el.name else "");
      HoldsRequired(sig, components, bits, i) <==>
        HoldsRequired(sig[..|sig| - 1], components, bits, i) && (Required(el) && c.Some? ==> i in bits[c.value])
  {
    var front := sig[..|sig| - 1];
    assert forall k :: 0 <= k < |front| ==> front[k] == sig[k];
  }

  /** The listed components of a concatenation hold `i` exactly when both
      parts' do. */
  lemma AllHoldConcat(a: seq<nat>, b: seq<nat>, bits: seq<set<u32>>, i: u32)
    requires forall k :: 0 <= k < |a| ==> a[k] < |bits|
    requires forall k :: 0 <= k < |b| ==> b[k] < |bits|
    ensures AllHold(a + b, bits, i) <==> AllHold(a, bits, i) && AllHold(b, bits, i)
  {
    assert forall k :: 0 <= k < |a| ==> (a + b)[k] == a[k];
    assert forall k :: 0 <= k < |b| ==> (a + b)[|a| + k] == b[k];
  }

  /** Every bitset of the required components holds `i` exactly when every
      required component parameter's does. */
  lemma {:induction false} RequiredOfIsRequired(sig: seq<SigElement>, components: seq<Component>, bits: seq<set<u32>>, i: u32)
    requires |bits| == |components|
    ensures AllHold(RequiredOf(sig, components), bits, i) <==> HoldsRequired(sig, components, bits, i)
    decreases |sig|
  {
    if sig != [] {
      var front := sig[..|sig| - 1];
      var el := sig[|sig| - 1];
      RequiredOfIsRequired(front, components, bits, i);
      HoldsRequiredSnoc(sig, components, bits, i);
      var c := FirstNamed(ComponentNames(components), if el.ComponentParam? then el.name else "");
      var tail: seq<nat> := if Required(el) && c.Some? then [c.value] else [];
      assert RequiredOf(sig, components) == RequiredOf(front, components) + tail;
      AllHoldConcat(RequiredOf(front, components), tail, bits, i);
      if Required(el) && c.Some? {
        assert tail == [c.value] && tail[0] == c.value;
      } else {
        assert tail == [];
      }
    }
  }

  /** The generated mask holds exactly the indices the for-each loop is
      meant to visit. */
  lemma GeneratedMaskIsForEach(sig: seq<SigElement>, components: seq<Component>, resources: seq<Resource>,
                               bits: seq<set<u32>>, alive: set<u32>, i: u32)
    requires Generable(sig, components, resources) && |bits| == |components|
    ensures CodeOf(sig, components, resources).mask != []
    ensures Contains(MaskOf(CodeOf(sig, components, resources).mask, bits, alive), i) <==> InForEach(sig, components, bits, alive, i)
  {
    GenerableIff(sig, components, resources);
    FirstFaultIsFirst(MaskFaults(sig, components));
    RequiredOfEmpty(sig, components);
    ChainIsIntersection(RequiredOf(sig, components), bits, i);
    RequiredOfIsRequired(sig, components, bits, i);
  }

  /** What the system function returns for one entity: nothing of note, a
      `false` (stop), or an error. */
  datatype Reply = Proceed | Halt | Fail(error: nat)

  /** How one system run ends: it went through every entity, stopped on a
      `false` under `control_flow`, returned an error through `?` under
      `result`, or panicked while binding its parameters. */
  datatype Outcome = Completed | Stopped | Raised(error: nat) | Panicked(fault: Fault)

  /** A declared system, as far as its run is concerned. */
  datatype ForEachSystem = ForEachSystem(name: string, stage: string, result: bool, controlFlow: bool, signature: seq<SigElement>)

  /** Whether a reply ends the iteration, and how: an error only under
      `result`, a `false` only under `control_flow`; otherwise the returned
      value is discarded. */
  function Ends(sys: ForEachSystem, reply: Reply): (r: Option<Outcome>)
    ensures r.Some? <==> (sys.result && reply.Fail?) || (sys.controlFlow && reply.Halt?)
    ensures r.Some? && reply.Fail? ==> r.value == Raised(reply.error)
    ensures r.Some? && reply.Halt? ==> r.value == Stopped
  {
    if sys.result && reply.Fail? then Some(Raised(reply.error))
    else if sys.controlFlow && reply.Halt? then Some(Stopped)
    else None
  }

  /** The context of one system run: the system, its generated code, the
      store contents and the system function itself. */
  datatype Run<!T> = Run(sys: ForEachSystem, code: Code, s: State<T>, dflt: T, call: seq<Arg<T>> -> Reply)

  predicate RunShaped<T>(run: Run<T>) {
    Shaped(run.s) && CodeFits(run.code, |run.s.bits|)
  }

  /** The parameters bound at index `i`. */
  function BindAt<T>(run: Run<T>, i: u32): Result<seq<Arg<T>>, Fault>
    requires RunShaped(run)
  {
    Bind(run.code.inits, run.s, run.dflt, i)
  }

  /** The loop body at a visited index `i`: bind the parameters (a
      panic ends the run), call the system, and end the run if its reply
      says so; `None` when the loop goes on. */
  function StepEnding<T>(run: Run<T>, i: u32): (r: Option<Outcome>)
    requires RunShaped(run)
    ensures r.Some? && r.value.Panicked? <==> BindAt(run, i).Err?
    ensures r.None? <==> BindAt(run, i).Ok? && Ends(run.sys, run.call(BindAt(run, i).value)).None?
  {
    match BindAt(run, i)
    case Err(f) => Some(Panicked(f))
    case Ok(args) => Ends(run.sys, run.call(args))
  }

  /** The for-each loop over the keys, in order, until a step ends it. The
      visited keys and the outcome. */
  function Visit<T>(run: Run<T>, keys: seq<u32>): (seq<u32>, Outcome)
    requires RunShaped(run)
    decreases |keys|
  {
    if keys == [] then ([], Completed)
    else
      match StepEnding(run, keys[0])
      case Some(o) => ([keys[0]], o)
      case None =>
        var rest := Visit(run, keys[1..]);
        ([keys[0]] + rest.0, rest.1)
  }

  /** A run visits a prefix of the keys; it completes exactly when every
      key was visited and none of them panicked or ended it; otherwise it
      ended at the last key it visited, panicking exactly when the binding
      there failed. */
  lemma {:induction false} VisitIsPrefix<T>(run: Run<T>, keys: seq<u32>)
    requires RunShaped(run)
    ensures var (v, o) := Visit(run, keys);
      |v| <= |keys| && v == keys[..|v|]
      && (o == Completed <==> (v == keys && forall k :: 0 <= k < |keys| ==> StepEnding(run, keys[k]).None?))
      && (o != Completed ==> (v != [] && StepEnding(run, keys[|v| - 1]) == Some(o)))
      && (forall k :: 0 <= k < |v| - 1 ==> StepEnding(run, keys[k]).None?)
    decreases |keys|
  {
    if keys != [] {
      VisitIsPrefix(run, keys[1..]);
      var rest := Visit(run, keys[1..]);
      assert keys == [keys[0]] + keys[1..];
      forall k | 1 <= k < |keys| ensures keys[k] == keys[1..][k - 1] { }
    }
  }

  /** The visited keys of a finished prefix, followed by a run over the
      keys that remain. */
  function Glue(visited: seq<u32>, rest: (seq<u32>, Outcome)): (seq<u32>, Outcome) {
    (visited + rest.0, rest.1)
  }

  /** One step of the scan over the indices: an index outside the mask is
      skipped; one inside is visited, and either ends the run or passes on
      to the next index. */
  lemma {:induction false} VisitStep<T>(run: Run<T>, mask: BitMask, i: nat, visited: seq<u32>)
    requires RunShaped(run) && i < U32_LIMIT
    ensures !Contains(mask, i) ==>
      Glue(visited, Visit(run, Keys(mask, i))) == Glue(visited, Visit(run, Keys(mask, i + 1)))
    ensures Contains(mask, i) && StepEnding(run, i).Some? ==>
      Glue(visited, Visit(run, Keys(mask, i))) == (visited + [i], StepEnding(run, i).value)
    ensures Contains(mask, i) && StepEnding(run, i).None? ==>
      Glue(visited, Visit(run, Keys(mask, i))) == Glue(visited + [i], Visit(run, Keys(mask, i + 1)))
  {
    if Contains(mask, i) {
      var ks := Keys(mask, i);
      assert ks == [i] + Keys(mask, i + 1);
      assert ks[0] == i && ks[1..] == Keys(mask, i + 1);
      assert visited + ([i] + Visit(run, Keys(mask, i + 1)).0) == (visited + [i]) + Visit(run, Keys(mask, i + 1)).0;
    }
  }

  /** The for-each loop `make_run` emits, over the mask `MaskOf` gives for
      the generated code: every index of the mask in ascending order, binding the
      parameters and calling the system, until the keys run out or the run
      ends early. */
  method RunForEach<T>(run: Run<T>, mask: BitMask) returns (r: Outcome, ghost visited: seq<u32>)
    requires RunShaped(run)
    ensures r == Visit(run, Keys(mask, 0)).1
    ensures (visited, r) == Visit(run, Keys(mask, 0))
  {
    visited := [];
    var i: nat := 0;
    assert visited + Visit(run, Keys(mask, 0)).0 == Visit(run, Keys(mask, 0)).0;
    while i < U32_LIMIT
      invariant i <= U32_LIMIT
      invariant Visit(run, Keys(mask, 0)) == Glue(visited, Visit(run, Keys(mask, i)))
      decreases U32_LIMIT - i
    {
      VisitStep(run, mask, i, visited);
      if Contains(mask, i) {
        var ending := StepEnding(run, i);
        visited := visited + [i];
        if ending.Some? {
          return ending.value, visited;
        }
      }
      i := i + 1;
    }
    assert Keys(mask, i) == [];
    assert visited + [] == visited;
    r := Completed;
  }

  /** The argument bound by a component initialiser at a visited entity is
      what the store's getter returns for it: the payload itself for a
      required parameter, the optional payload for an optional one. */
  lemma {:induction false} BoundComponentIsView<T>(kinds: seq<StorageKind>, s: State<T>, dflt: T, init: Init, i: u32)
    requires Inv(kinds, s) && i in s.alive
    requires init.InitComponent? && init.component < |s.bits|
    requires !init.optional ==> i in s.bits[init.component]
    requires init.optional && s.backends[init.component].VecB? ==> i < |s.backends[init.component].slots|
    ensures BindOne(init, s, dflt, i).Ok?
    ensures var a := BindOne(init, s, dflt, i).value;
      if init.optional then a.MaybePayload? && a.opt == View(s, init.component, i, dflt)
      else a.Payload? && Some(a.value) == View(s, init.component, i, dflt)
  {
    var c := init.component;
    assert Coherent(s.backends[c], s.bits[c]);
    if !s.backends[c].NullB? {
      assert i in s.bits[c] <==> Lookup(s.backends[c], i).Some?;
    }
  }

  /** The safety argument of the for-each loop: at every index the
      generated mask holds, binding the generated initialisers panics only
      at an optional Vec component too short to reach the index. */
  lemma {:induction false} MaskedBindSucceeds<T>(kinds: seq<StorageKind>, sig: seq<SigElement>, components: seq<Component>,
                                                resources: seq<Resource>, s: State<T>, dflt: T, i: u32)
    requires Inv(kinds, s) && Declares(components, s) && Generable(sig, components, resources)
    requires Contains(MaskOf(CodeOf(sig, components, resources).mask, s.bits, s.alive), i)
    requires forall k :: 0 <= k < |sig| && sig[k].ComponentParam? && IsOpt(sig[k].access) ==>
      var c := FirstNamed(ComponentNames(components), sig[k].name);
      c.Some? && s.backends[c.value].VecB? ==> i < |s.backends[c.value].slots|
    ensures Bind(CodeOf(sig, components, resources).inits, s, dflt, i).Ok?
  {
    var code := CodeOf(sig, components, resources);
    GeneratedMaskIsForEach(sig, components, resources, s.bits, s.alive, i);
    GenerableIff(sig, components, resources);
    BindIsPointwise(code.inits, s, dflt, i);
    forall k | 0 <= k < |sig| ensures BindOne(code.inits[k], s, dflt, i).Ok? {
      if sig[k].ComponentParam? {
        BoundComponentIsView(kinds, s, dflt, code.inits[k], i);
      }
    }
  }

  /** An optional Vec parameter reads `get(i).unwrap()`: an alive entity
      built without that component leaves the Vec short, and visiting it
      panics. */
  lemma OptionalVecReadPanicsWhenShort<T>(dflt: T)
    ensures var s: State<T> := State({0}, [{}], [VecB([])]);
      BindOne(Resolve(ComponentParam(OptionAccess(ReadAccess), "c"), [Component("C", "c", Vec, None)], []), s, dflt, 0)
        == Err(IndexOutOfBounds)
  {
    assert ComponentNames([Component("C", "c", Vec, None)]) == ["c"];
  }

  /** Without `result` and `control_flow` the replies are discarded: a run
      that never panics visits every key. */
  lemma {:induction false} PlainSystemVisitsAll<T>(run: Run<T>, keys: seq<u32>)
    requires RunShaped(run) && !run.sys.result && !run.sys.controlFlow
    requires forall k :: 0 <= k < |keys| ==> BindAt(run, keys[k]).Ok?
    ensures Visit(run, keys) == (keys, Completed)
    decreases |keys|
  {
    if keys != [] {
      forall k | 0 <= k < |keys| - 1 ensures BindAt(run, keys[1..][k]).Ok? {
        assert keys[1..][k] == keys[k + 1];
      }
      PlainSystemVisitsAll(run, keys[1..]);
      assert keys == [keys[0]] + keys[1..];
    }
  }
}
