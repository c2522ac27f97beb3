/** The modal's record of the event listeners it has bound, kept so that
    `dispose` can release them all. */
module BoundEvents {
  import opened Sequences

  /** What the host's conditional bind returns; only its identity matters. */
  datatype Handle = Handle(id: nat)

  /** Where the overlay element stands: not yet rendered, rendered but not
      in the document, or appended to the host's widget layer by `show`.
      This is the element `htmlDiv_` currently points to: an element a
      second `render` stops pointing to is no longer tracked. Only what the
      modal itself does to the element is recorded; what the host's `hide`
      does to its widget layer is not. */
  datatype Overlay = NotRendered | Detached | Attached

  /** The bookkeeping part of the modal. `unbound` records, in order, every
      handle the modal has passed to the host's unbind. */
  datatype Modal = Modal(boundEvents: seq<Handle>, overlay: Overlay, unbound: seq<Handle>)

  /** A modal that has bound nothing and released nothing. */
  function Fresh(): (r: Modal)
    ensures r.boundEvents == [] && r.unbound == [] && r.overlay == NotRendered
  {
    Modal([], NotRendered, [])
  }

  /** `addEvent_`: the new handle is recorded after all earlier ones and
      nothing else changes. */
  function AddEvent(m: Modal, h: Handle): (r: Modal)
    ensures |r.boundEvents| == |m.boundEvents| + 1
    ensures r.boundEvents[..|m.boundEvents|] == m.boundEvents
    ensures r.boundEvents[|m.boundEvents|] == h
    ensures r.overlay == m.overlay && r.unbound == m.unbound
  {
    m.(boundEvents := m.boundEvents + [h])
  }

  /** The loop of `dispose`: unbind each handle once, front to back. */
  function UnbindEach(unbound: seq<Handle>, events: seq<Handle>): (r: seq<Handle>)
    ensures r == unbound + events
    decreases |events|
  {
    if |events| == 0 then unbound
    else UnbindEach(unbound + [events[0]], events[1..])
  }

  /** `dispose`: release every recorded handle in order, forget them all,
      and take a rendered overlay out of the document. */
  function Dispose(m: Modal): (r: Modal)
    ensures r.boundEvents == []
    ensures r.unbound == m.unbound + m.boundEvents
    ensures r.overlay == if m.overlay.NotRendered? then NotRendered else Detached
  {
    Modal([], if m.overlay.NotRendered? then NotRendered else Detached,
          UnbindEach(m.unbound, m.boundEvents))
  }

  /** A second `dispose` releases nothing more and changes nothing. */
  lemma DisposeIdempotent(m: Modal)
    ensures Dispose(Dispose(m)).unbound == Dispose(m).unbound
    ensures Dispose(Dispose(m)) == Dispose(m)
  {
  }

  /** `render` creates a fresh overlay element, not yet in the document. */
  function Render(m: Modal): (r: Modal)
    ensures r.overlay == Detached
    ensures r.boundEvents == m.boundEvents && r.unbound == m.unbound
  {
    m.(overlay := Detached)
  }

  /** `show` appends a rendered overlay to the host's widget layer. Before
      any `render` there is no element, and the source fails there; the
      model leaves such a modal as it is. */
  function Show(m: Modal): (r: Modal)
    ensures m.overlay.NotRendered? <==> r.overlay.NotRendered?
    ensures !m.overlay.NotRendered? ==> r.overlay == Attached
    ensures r.boundEvents == m.boundEvents && r.unbound == m.unbound
  {
    if m.overlay.NotRendered? then m else m.(overlay := Attached)
  }

  /** The operations on the modal. `Add` is one `addEvent_` (the bindings
      `render` makes are separate `Add`s). `Hide` is the modal's `hide`,
      which only hides the host's widget layer and does not unbind. */
  datatype Op = Add(h: Handle) | RenderOverlay | ShowOverlay | Hide | DisposeAll

  function Step(m: Modal, op: Op): (r: Modal)
    // a released handle stays released, in its place
    ensures |m.unbound| <= |r.unbound| && r.unbound[..|m.unbound|] == m.unbound
    // only `dispose` releases handles, and only `addEvent_` records one
    ensures !op.DisposeAll? ==> r.unbound == m.unbound
    ensures !op.Add? && !op.DisposeAll? ==> r.boundEvents == m.boundEvents
    // `hide` changes nothing the modal keeps
    ensures op.Hide? ==> r == m
  {
    match op
    case Add(h) => AddEvent(m, h)
    case RenderOverlay => Render(m)
    case ShowOverlay => Show(m)
    case Hide => m
    case DisposeAll => Dispose(m)
  }

  function Run(m: Modal, ops: seq<Op>): Modal
    decreases |ops|
  {
    if |ops| == 0 then m else Run(Step(m, ops[0]), ops[1..])
  }

  /** The handles a sequence of operations binds, in order. */
  function Added(ops: seq<Op>): seq<Handle>
    decreases |ops|
  {
    if |ops| == 0 then []
    else (if ops[0].Add? then [ops[0].h] else []) + Added(ops[1..])
  }

  /** No handle is lost and none is released twice: at every point the
      handles released so far followed by those still recorded are exactly
      the handles ever bound, in binding order. */
  lemma {:induction false} ReleasedThenRecorded(m: Modal, ops: seq<Op>)
    ensures Run(m, ops).unbound + Run(m, ops).boundEvents
            == m.unbound + m.boundEvents + Added(ops)
    decreases |ops|
  {
    if |ops| > 0 {
      ReleasedThenRecorded(Step(m, ops[0]), ops[1..]);
    }
  }

  /** After a final `dispose` the overlay is out of the document, whatever
      came before; and render, show and dispose in that order attach and
      then remove it. */
  lemma {:induction false} DisposeDetaches(m: Modal, ops: seq<Op>)
    ensures Run(m, ops + [DisposeAll]).overlay != Attached
    ensures Run(m, [RenderOverlay, ShowOverlay]).overlay == Attached
    ensures Run(m, [RenderOverlay, ShowOverlay, DisposeAll]).overlay == Detached
  {
    RunAppend(m, ops, [DisposeAll]);
    assert [RenderOverlay, ShowOverlay][1..] == [ShowOverlay];
    assert [RenderOverlay, ShowOverlay, DisposeAll][1..] == [ShowOverlay, DisposeAll];
    assert [ShowOverlay, DisposeAll][1..] == [DisposeAll];
  }

  /** Every handle bound after creation is released exactly once by a
      final `dispose`, provided the host hands out distinct handles. */
  lemma DisposeReleasesEachOnce(ops: seq<Op>, h: Handle)
    requires Distinct(Added(ops))
    requires h in Added(ops)
    ensures var m := Run(Fresh(), ops + [DisposeAll]);
            m.boundEvents == [] && multiset(m.unbound)[h] == 1
  {
    var m := Run(Fresh(), ops + [DisposeAll]);
    RunAppend(Fresh(), ops, [DisposeAll]);
    assert m == Dispose(Run(Fresh(), ops));
    ReleasedThenRecorded(Fresh(), ops + [DisposeAll]);
    AddedAppend(ops, [DisposeAll]);
    assert Added([DisposeAll]) == [];
    assert m.boundEvents == [] && m.unbound + m.boundEvents == m.unbound;
    assert Fresh().unbound + Fresh().boundEvents == [];
    assert Added(ops) + Added([DisposeAll]) == Added(ops);
    assert m.unbound == Added(ops);
    DistinctCountsOnce(Added(ops), h);
  }

  lemma {:induction false} RunAppend(m: Modal, ops: seq<Op>, more: seq<Op>)
    ensures Run(m, ops + more) == Run(Run(m, ops), more)
    decreases |ops|
  {
    if |ops| > 0 {
      assert (ops + more)[1..] == ops[1..] + more;
      RunAppend(Step(m, ops[0]), ops[1..], more);
    } else {
      assert ops + more == more;
    }
  }

  lemma {:induction false} AddedAppend(ops: seq<Op>, more: seq<Op>)
    ensures Added(ops + more) == Added(ops) + Added(more)
    decreases |ops|
  {
    if |ops| > 0 {
      assert (ops + more)[1..] == ops[1..] + more;
      AddedAppend(ops[1..], more);
    } else {
      assert ops + more == more;
    }
  }

  lemma {:induction false} DistinctCountsOnce(s: seq<Handle>, h: Handle)
    requires Distinct(s)
    requires h in s
    ensures multiset(s)[h] == 1
    decreases |s|
  {
    assert s == [s[0]] + s[1..];
    if s[0] == h {
      assert h !in s[1..];
    } else {
      DistinctCountsOnce(s[1..], h);
    }
  }
}
