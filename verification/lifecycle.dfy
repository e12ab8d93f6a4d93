/**
  The life cycle of a yage_core component (yage_core/src/component/component_handle.rs): a
  handle starts in `Init`, and each `run_cycle` either moves it one phase on, waking its task so
  that the next cycle follows at once, or hands the cycle to the draw, update or derender
  operation of its phase. The operations are oracles: each is given as the `Poll` it returns.
*/
module ComponentLifecycle {
  import opened Outcome

  /** `Lifecycle`, in declaration order, which is also its derived `Ord`. */
  datatype Lifecycle = Init | Drawing | Idle | Updating | Derendering | Dropping

  /** The position of a phase in the declared order. */
  function Rank(l: Lifecycle): nat {
    match l
    case Init => 0
    case Drawing => 1
    case Idle => 2
    case Updating => 3
    case Derendering => 4
    case Dropping => 5
  }

  /** `Poll<crate::Result<()>>`: pending, or ready with success or an error. */
  datatype Poll = Pending | Ready(ok: bool)

  /** The operation a cycle hands over to. */
  datatype Op = Draw | Update | Derender

  /** `ComponentHandle`: the phase and the component the operations act on. */
  datatype ComponentHandle<C> = ComponentHandle(lifecycle: Lifecycle, component: C)

  /** What one `run_cycle` did: the phase afterwards, its result, the wakes it issued, the operation it called. */
  datatype Cycle = Cycle(next: Lifecycle, poll: Poll, wakes: nat, called: Option<Op>)

  /** `init`: a handle over the initialised component, in the first phase. */
  function InitHandle<C>(component: C): (h: ComponentHandle<C>)
    ensures h.component == component
    ensures forall l :: Rank(h.lifecycle) <= Rank(l)
  {
    ComponentHandle(Init, component)
  }

  /**
    `run_cycle`, given what each operation would return. Moving on from `Init` or `Idle` wakes
    once and is pending; `Drawing` and `Updating` stay put and pass their operation's result
    through; `Derendering` stays while its operation is pending, moves to `Dropping` with a wake
    when it succeeds and panics when it fails; `Dropping` is done without calling anything.
  */
  function RunCycle(l: Lifecycle, draw: Poll, update: Poll, derender: Poll): (r: Res<Cycle>)
    ensures r.Fail? <==> l == Derendering && derender == Ready(false)
    ensures r.Fail? ==> r.fault == AssertionFailed
    ensures r.Ok? ==> Rank(l) <= Rank(r.value.next) <= Rank(l) + 1
    ensures r.Ok? ==> (r.value.wakes == 1 <==> r.value.next != l) && r.value.wakes <= 1
    ensures r.Ok? && r.value.next != l ==> r.value.poll == Pending
    ensures r.Ok? ==>
      && (r.value.called == Some(Draw) <==> l == Drawing)
      && (r.value.called == Some(Update) <==> l == Updating)
      && (r.value.called == Some(Derender) <==> l == Derendering)
  {
    match l
    case Init => Ok(Cycle(Drawing, Pending, 1, None))
    case Drawing => Ok(Cycle(Drawing, draw, 0, Some(Draw)))
    case Idle => Ok(Cycle(Updating, Pending, 1, None))
    case Updating => Ok(Cycle(Updating, update, 0, Some(Update)))
    case Derendering =>
      (match derender
       case Pending => Ok(Cycle(Derendering, Pending, 0, Some(Derender)))
       case Ready(true) => Ok(Cycle(Dropping, Pending, 1, Some(Derender)))
       case Ready(false) => Fail(AssertionFailed))
    case Dropping => Ok(Cycle(Dropping, Ready(true), 0, None))
  }

  /**
    A cycle that stays in its phase returns exactly what the phase's operation returned, and
    `Dropping` is ready with success.
  */
  lemma StayingPassesThrough(l: Lifecycle, draw: Poll, update: Poll, derender: Poll)
    requires RunCycle(l, draw, update, derender).Ok?
    ensures var c := RunCycle(l, draw, update, derender).value;
      c.next == l ==>
        c.poll == match l
          case Drawing => draw
          case Updating => update
          case Derendering => derender
          case Dropping => Ready(true)
          case _ => c.poll
  {
  }

  /** The three operation results of one cycle. */
  datatype Oracle = Oracle(draw: Poll, update: Poll, derender: Poll)

  /** Running one cycle per oracle, from phase `l`: the phase reached, or the first panic. */
  function RunCycles(l: Lifecycle, oracles: seq<Oracle>): (r: Res<Lifecycle>)
    decreases |oracles|
  {
    if oracles == [] then Ok(l)
    else
      var o := oracles[0];
      var c :- RunCycle(l, o.draw, o.update, o.derender);
      RunCycles(c.next, oracles[1..])
  }

  /** However many cycles run, a component never returns to an earlier phase. */
  lemma {:induction false} CyclesMoveForward(l: Lifecycle, oracles: seq<Oracle>)
    requires RunCycles(l, oracles).Ok?
    ensures Rank(l) <= Rank(RunCycles(l, oracles).value)
    decreases |oracles|
  {
    if oracles != [] {
      var o := oracles[0];
      var c := RunCycle(l, o.draw, o.update, o.derender).value;
      CyclesMoveForward(c.next, oracles[1..]);
    }
  }

  /**
    No cycle moves a component out of `Drawing`, so one started by `init` is only ever in `Init`
    or `Drawing`, never panics, and never reaches `Idle`, `Updating`, `Derendering` or `Dropping`.
  */
  lemma {:induction false} DrawingIsFinal(l: Lifecycle, oracles: seq<Oracle>)
    requires l == Init || l == Drawing
    ensures RunCycles(l, oracles).Ok?
    ensures RunCycles(l, oracles).value == (if oracles == [] then l else Drawing)
    decreases |oracles|
  {
    if oracles != [] {
      var o := oracles[0];
      var c := RunCycle(l, o.draw, o.update, o.derender).value;
      DrawingIsFinal(c.next, oracles[1..]);
    }
  }

  /** A handle fresh from `init` stays within its first two phases. */
  lemma InitReaches<C>(component: C, oracles: seq<Oracle>)
    ensures var r := RunCycles(InitHandle(component).lifecycle, oracles);
      r.Ok? && (r.value == Init || r.value == Drawing)
  {
    DrawingIsFinal(Init, oracles);
  }
}
