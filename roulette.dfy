/** The application state behind the page's event handlers: the entry list and the
    spinning flag, the four handlers that change them, and what sequences of events keep. */
module Roulette {
  import opened JsString
  import opened Entries

  /** The fewest entries a spin may start with. */
  const MIN_SPIN_ITEMS: nat := 2

  /** The part of the page state the handlers read and write. */
  datatype AppState = AppState(items: seq<Item>, spinning: bool)

  /** The user actions (and the end of the animation) that change AppState. */
  datatype Event =
    | AddItem(input: string, id: Id)
    | DeleteItem(id: Id)
    | Spin
    | SpinComplete

  /** How a spin request ends: ignored while a spin runs, refused (with a notice) with fewer
      than MIN_SPIN_ITEMS entries, started otherwise. */
  datatype SpinOutcome = Started | AlreadySpinning | TooFewItems

  function SpinOutcomeOf(st: AppState): (o: SpinOutcome)
    ensures o == Started <==> !st.spinning && |st.items| >= MIN_SPIN_ITEMS
    ensures o == AlreadySpinning <==> st.spinning
  {
    if st.spinning then AlreadySpinning
    else if |st.items| < MIN_SPIN_ITEMS then TooFewItems
    else Started
  }

  /** The state the page starts in: the four default entries and no spin running. */
  function Initial(ids: seq<Id>): (st: AppState)
    requires |ids| == 4
    ensures Invariant(st) && !st.spinning && |st.items| == 4
  {
    AppState(InitialItems(ids), false)
  }

  /** The effect of one event. Adding and deleting are not blocked while a spin runs, and
      never touch the flag; spin requests and completions never touch the list. */
  function Step(st: AppState, e: Event): (r: AppState)
    ensures e.AddItem? || e.DeleteItem? ==> r.spinning == st.spinning
    ensures e.Spin? || e.SpinComplete? ==> r.items == st.items
    ensures e.SpinComplete? ==> !r.spinning
  {
    match e
    case AddItem(input, id) => st.(items := AfterAdd(st.items, input, id))
    case DeleteItem(id) => st.(items := AfterDelete(st.items, id))
    case Spin => if SpinOutcomeOf(st) == Started then st.(spinning := true) else st
    case SpinComplete => st.(spinning := false)
  }

  /** The effect of a sequence of events, first to last. Spin requests and completions alone
      never change the list. */
  function Run(st: AppState, es: seq<Event>): (r: AppState)
    ensures (forall k :: 0 <= k < |es| ==> es[k].Spin? || es[k].SpinComplete?) ==> r.items == st.items
    decreases |es|
  {
    if es == [] then st else Run(Step(st, es[0]), es[1..])
  }

  /** The entry-list invariant, lifted to the application state. */
  predicate Invariant(st: AppState) {
    WellFormed(st.items)
  }

  lemma StepPreservesInvariant(st: AppState, e: Event)
    requires Invariant(st)
    ensures Invariant(Step(st, e))
  {
    match e
    case AddItem(input, id) => AddPreservesWellFormed(st.items, input, id);
    case DeleteItem(id) => DeletePreservesWellFormed(st.items, id);
    case Spin =>
    case SpinComplete =>
  }

  /** Whatever the events, a well-formed state stays well formed: the list never exceeds
      MAX_ITEMS entries and entry i always has the colour of position i. */
  lemma {:induction false} RunPreservesInvariant(st: AppState, es: seq<Event>)
    requires Invariant(st)
    ensures Invariant(Run(st, es))
    decreases |es|
  {
    if es != [] {
      StepPreservesInvariant(st, es[0]);
      RunPreservesInvariant(Step(st, es[0]), es[1..]);
    }
  }

  /** Every state the page can reach from its start satisfies the invariant. */
  lemma ReachableInvariant(ids: seq<Id>, es: seq<Event>)
    requires |ids| == 4
    ensures Invariant(Run(Initial(ids), es))
  {
    RunPreservesInvariant(Initial(ids), es);
  }

  /** A spin request while spinning, or with too few entries, changes nothing. */
  lemma SpinRejectedUnchanged(st: AppState)
    requires st.spinning || |st.items| < MIN_SPIN_ITEMS
    ensures SpinOutcomeOf(st) != Started
    ensures Step(st, Spin) == st
  {
  }

  /** An accepted spin request sets the flag and leaves the list alone. */
  lemma SpinAccepted(st: AppState)
    requires !st.spinning && |st.items| >= MIN_SPIN_ITEMS
    ensures Step(st, Spin) == AppState(st.items, true)
  {
  }

  /** A spin followed by its completion returns an idle page to exactly where it was. */
  lemma SpinCycleRestores(st: AppState)
    requires !st.spinning
    ensures Run(st, [Spin, SpinComplete]) == st
  {
  }

  /** "A spinning wheel has at least MIN_SPIN_ITEMS entries". */
  predicate SpinReady(st: AppState) {
    st.spinning ==> |st.items| >= MIN_SPIN_ITEMS
  }

  /** Add, spin and completion keep SpinReady. */
  lemma SpinReadyPreserved(st: AppState, e: Event)
    requires SpinReady(st) && !e.DeleteItem?
    ensures SpinReady(Step(st, e))
  {
  }

  /** Delete does not keep SpinReady: an entry can be deleted while the wheel turns, leaving a
      spinning wheel with a single entry (and, by further deletes, with none). */
  lemma DeleteWhileSpinning()
    ensures var st := AppState([Item("a", "x", PaletteColour(0)), Item("b", "y", PaletteColour(1))], true);
            Invariant(st) && SpinReady(st) && !SpinReady(Step(st, DeleteItem("a")))
  {
  }

  /** The page's mutable state, updated in place by the event handlers. */
  class App {
    var items: seq<Item>
    var isSpinning: bool

    function State(): AppState
      reads this
    {
      AppState(items, isSpinning)
    }

    ghost predicate Valid()
      reads this
    {
      Invariant(State())
    }

    /** Page load: four default entries with the given fresh identifiers, no spin running. */
    constructor (ids: seq<Id>)
      requires |ids| == 4
      ensures Valid()
      ensures State() == Initial(ids)
    {
      items := InitialItems(ids);
      isSpinning := false;
    }

    /** handleAddItem: trims the input, drops an empty name or an add to a full list, and
        otherwise appends the entry coloured by its position. */
    method HandleAddItem(input: string, freshId: Id) returns (outcome: AddOutcome)
      requires Valid()
      modifies this
      ensures Valid()
      ensures outcome == AddOutcomeOf(old(items), input)
      ensures State() == Step(old(State()), AddItem(input, freshId))
    {
      var name := Trim(input);
      if name == [] {
        return EmptyName;
      }
      if |items| >= MAX_ITEMS {
        return ListFull;
      }
      var colorIndex := |items| % |COLORS|;
      items := items + [Item(freshId, name, COLORS[colorIndex])];
      outcome := Added;
      AddPreservesWellFormed(old(items), input, freshId);
    }

    /** handleDeleteItem: keeps the entries whose identifier differs, then recolours each
        survivor by its new position. */
    method HandleDeleteItem(id: Id)
      requires Valid()
      modifies this
      ensures Valid()
      ensures State() == Step(old(State()), DeleteItem(id))
    {
      items := WithoutId(items, id);
      ghost var kept := items;
      var i := 0;
      while i < |items|
        invariant 0 <= i <= |items| == |kept|
        invariant forall k :: 0 <= k < i ==> items[k] == kept[k].(color := PaletteColour(k))
        invariant forall k :: i <= k < |items| ==> items[k] == kept[k]
        invariant isSpinning == old(isSpinning)
      {
        items := items[i := items[i].(color := COLORS[i % |COLORS|])];
        i := i + 1;
      }
      assert forall k :: 0 <= k < |items| ==> items[k] == Recoloured(kept)[k];
      assert items == AfterDelete(old(items), id);
      DeletePreservesWellFormed(old(items), id);
    }

    /** handleSpin: the flag is set only when no spin runs and there are enough entries. */
    method HandleSpin() returns (outcome: SpinOutcome)
      requires Valid()
      modifies this
      ensures Valid()
      ensures outcome == SpinOutcomeOf(old(State()))
      ensures State() == Step(old(State()), Spin)
    {
      if isSpinning {
        return AlreadySpinning;
      }
      if |items| < MIN_SPIN_ITEMS {
        return TooFewItems;
      }
      isSpinning := true;
      outcome := Started;
    }

    /** onSpinComplete: the wheel is idle again. */
    method OnSpinComplete()
      requires Valid()
      modifies this
      ensures Valid()
      ensures State() == Step(old(State()), SpinComplete)
    {
      isSpinning := false;
    }
  }
}
