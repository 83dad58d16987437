/** The closure adapter that `__wbindgen_closure_wrapper75` builds and
    `__wbindgen_cb_drop` releases. The wrapper `cb` keeps two fields: `a`,
    the guest's closure pointer, which is zeroed while a call is in flight,
    and `cnt`, one reference for the handle plus one per in-flight call. A
    call hands `a` to the guest's `f` and, in its `finally`, either runs the
    guest's destructor `d` (when the count reaches 0) or puts `a` back. */
module ClosureAdapter {

  /** The wrapper's fields `a` and `cnt`. */
  datatype Rec = Rec(a: int, cnt: int)

  /** One finalisation of the guest closure: the pointer it was given, and
      whether the drop did it (`__wbindgen_cb_drop` returned 1, so the guest
      frees the closure) rather than a call's `finally` running `d(a, b)`. */
  datatype Final = Final(payload: int, byDrop: bool)

  /** The wrapper's fields, every payload handed to `f` so far, and every
      finalisation so far. */
  datatype State = State(rec: Rec, payloads: seq<int>, finals: seq<Final>)

  /** What happens while `f` runs: the host may call the wrapper again
      (`Invoke`) or drop its handle (`Release`), in order. Whether `f` then
      returns or throws does not matter, because the `finally` runs either
      way. */
  datatype Call = Call(body: seq<Act>)
  datatype Act = Invoke(call: Call) | Release

  /** The record a fresh wrapper starts with (`cb.a = a; cb.cnt = 1`). */
  function Created(a: int): Rec {
    Rec(a, 1)
  }

  /** `__wbindgen_cb_drop` on the wrapper: decrement the count and, when the
      handle held the last reference, zero `a` and return 1 so the guest
      frees the closure; otherwise return 0 and leave `a` alone. */
  function DropRec(r: Rec): (out: (Rec, int))
    ensures out.0.cnt == r.cnt - 1
    ensures out.1 == 1 <==> r.cnt == 1
    ensures out.1 == 0 <==> r.cnt != 1
    ensures out.0.a == (if r.cnt == 1 then 0 else r.a)
  {
    if r.cnt == 1 then (Rec(0, 0), 1) else (Rec(r.a, r.cnt - 1), 0)
  }

  /** A drop inside a trace, logging the finalisation it triggers. */
  function DropStep(st: State): State {
    var (rec, ret) := DropRec(st.rec);
    State(rec, st.payloads, if ret == 1 then st.finals + [Final(st.rec.a, true)] else st.finals)
  }

  /** One call of `cb`: count it, take `a` and zero it, run `f(a, b)` with
      whatever the host does meanwhile, then in `finally` decrement the
      count and either run `d(a, b)` or restore `a`. */
  function RunCall(c: Call, st: State): State
    decreases c
  {
    var saved := st.rec.a;
    var inside := State(Rec(0, st.rec.cnt + 1), st.payloads + [saved], st.finals);
    var after := RunActs(c.body, 0, inside);
    var cnt := after.rec.cnt - 1;
    if cnt == 0 then State(Rec(after.rec.a, 0), after.payloads, after.finals + [Final(saved, false)])
    else State(Rec(saved, cnt), after.payloads, after.finals)
  }

  /** The acts from index `i` on, in order. */
  function RunActs(acts: seq<Act>, i: nat, st: State): State
    requires i <= |acts|
    decreases acts, |acts| - i
  {
    if i == |acts| then st else RunActs(acts, i + 1, RunAct(acts[i], st))
  }

  /** One act: a nested call of the wrapper, or the drop. */
  function RunAct(x: Act, st: State): State
    decreases x
  {
    match x
    case Invoke(c) => RunCall(c, st)
    case Release => DropStep(st)
  }

  /** How many drops an act, a call or a run of acts performs. */
  function ActReleases(x: Act): nat
    decreases x
  {
    match x
    case Release => 1
    case Invoke(c) => Releases(c)
  }

  function Releases(c: Call): nat
    decreases c
  {
    ReleasesIn(c.body, 0)
  }

  function ReleasesIn(acts: seq<Act>, i: nat): nat
    requires i <= |acts|
    decreases acts, |acts| - i
  {
    if i == |acts| then 0 else ActReleases(acts[i]) + ReleasesIn(acts, i + 1)
  }

  // ---------------------------------------------------------------------
  // Calls without a drop

  /** A call during which the handle is not dropped leaves `a` and `cnt` as
      they were and finalises nothing, whatever nested calls it makes. */
  lemma {:induction false} CallRestores(c: Call, st: State)
    requires Releases(c) == 0 && st.rec.cnt >= 1
    ensures RunCall(c, st).rec == st.rec
    ensures RunCall(c, st).finals == st.finals
    decreases c
  {
    var inside := State(Rec(0, st.rec.cnt + 1), st.payloads + [st.rec.a], st.finals);
    ActsRestore(c.body, 0, inside);
  }

  lemma {:induction false} ActsRestore(acts: seq<Act>, i: nat, st: State)
    requires i <= |acts| && ReleasesIn(acts, i) == 0 && st.rec.cnt >= 1
    ensures RunActs(acts, i, st).rec == st.rec
    ensures RunActs(acts, i, st).finals == st.finals
    decreases acts, |acts| - i
  {
    if i < |acts| {
      match acts[i] {
        case Invoke(c) =>
          assert c < acts[i];
          CallRestores(c, st);
          ActsRestore(acts, i + 1, RunCall(c, st));
        case Release =>
          assert false;
      }
    }
  }

  // ---------------------------------------------------------------------
  // Payloads

  /** Every payload logged from position `n` on is 0. */
  predicate ZeroFrom(p: seq<int>, n: nat) {
    n <= |p| && forall k :: n <= k < |p| ==> p[k] == 0
  }

  /** A call hands `f` the current `a`, and every call nested inside it sees
      0; a call that starts with `a` zeroed leaves it zeroed. */
  lemma {:induction false} CallPayloads(c: Call, st: State)
    ensures var r := RunCall(c, st);
      && |st.payloads| < |r.payloads|
      && r.payloads[..|st.payloads|] == st.payloads
      && r.payloads[|st.payloads|] == st.rec.a
      && ZeroFrom(r.payloads, |st.payloads| + 1)
    ensures st.rec.a == 0 ==> RunCall(c, st).rec.a == 0
    decreases c
  {
    var inside := State(Rec(0, st.rec.cnt + 1), st.payloads + [st.rec.a], st.finals);
    ActsZero(c.body, 0, inside);
    var after := RunActs(c.body, 0, inside);
    assert after.payloads[..|st.payloads|] == inside.payloads[..|inside.payloads|][..|st.payloads|];
  }

  lemma {:induction false} ActsZero(acts: seq<Act>, i: nat, st: State)
    requires i <= |acts| && st.rec.a == 0
    ensures var r := RunActs(acts, i, st);
      && r.rec.a == 0
      && |st.payloads| <= |r.payloads|
      && r.payloads[..|st.payloads|] == st.payloads
      && ZeroFrom(r.payloads, |st.payloads|)
    decreases acts, |acts| - i
  {
    if i < |acts| {
      var next := RunAct(acts[i], st);
      match acts[i] {
        case Invoke(c) => assert c < acts[i]; CallPayloads(c, st);
        case Release =>
      }
      ActsZero(acts, i + 1, next);
      var r := RunActs(acts, i + 1, next);
      assert r.payloads[..|st.payloads|] == r.payloads[..|next.payloads|][..|st.payloads|];
    }
  }

  // ---------------------------------------------------------------------
  // Exactly-once finalisation

  /** The acts from `i` on drop the handle once; at the top level (no call
      in flight) that drop must come in the last act, since a call after it
      would run the released closure. */
  predicate Settles(acts: seq<Act>, i: nat, depth: nat)
    requires i <= |acts|
  {
    && ReleasesIn(acts, i) == 1
    && (depth == 0 ==> i < |acts| && ActReleases(acts[|acts| - 1]) == 1)
  }

  /** A call that drops the handle once, made with `depth` calls already in
      flight: the count ends one lower, and the call's own `finally` runs
      `d` with the pointer it took exactly when it was the outermost call. */
  lemma {:induction false} CallWithRelease(c: Call, st: State, depth: nat)
    requires Releases(c) == 1 && st.rec.cnt == depth + 1
    ensures var r := RunCall(c, st);
      && r.rec.cnt == depth
      && r.finals == st.finals + (if depth == 0 then [Final(st.rec.a, false)] else [])
      && (depth > 0 ==> r.rec.a == st.rec.a)
    decreases c
  {
    var inside := State(Rec(0, st.rec.cnt + 1), st.payloads + [st.rec.a], st.finals);
    ActsWithRelease(c.body, 0, inside, depth + 1);
  }

  lemma {:induction false} ActsWithRelease(acts: seq<Act>, i: nat, st: State, depth: nat)
    requires i <= |acts| && Settles(acts, i, depth) && st.rec.cnt == depth + 1
    ensures var r := RunActs(acts, i, st);
      && r.rec.cnt == depth
      && r.finals == st.finals + (if depth == 0 then [Final(st.rec.a, acts[|acts| - 1] == Release)] else [])
      && (depth > 0 ==> r.rec.a == st.rec.a)
    decreases acts, |acts| - i
  {
    var next := RunAct(acts[i], st);
    if ActReleases(acts[i]) == 0 {
      match acts[i] {
        case Invoke(c) => assert c < acts[i]; CallRestores(c, st);
        case Release => assert false;
      }
      ActsWithRelease(acts, i + 1, next, depth);
    } else {
      match acts[i] {
        case Invoke(c) => assert c < acts[i]; CallWithRelease(c, st, depth);
        case Release =>
      }
      if depth == 0 && i + 1 < |acts| {
        ReleasesInCovers(acts, i + 1, |acts| - 1);
        assert false;
      }
      if depth > 0 {
        ActsRestore(acts, i + 1, next);
      }
    }
  }

  /** A run of acts counts at least the drops of each act in it. */
  lemma {:induction false} ReleasesInCovers(acts: seq<Act>, j: nat, k: nat)
    requires j <= k < |acts|
    ensures ReleasesIn(acts, j) >= ActReleases(acts[k])
    decreases k - j
  {
    if j < k {
      ReleasesInCovers(acts, j + 1, k);
    }
  }

  /** From a fresh wrapper, any run of calls and drops that drops the handle
      once, with no call started after the drop has taken effect, finalises
      the closure exactly once with its original pointer: by the drop when
      no call is in flight, else by the outermost call's `finally`. */
  lemma ExactlyOnce(acts: seq<Act>, a0: int)
    requires ReleasesIn(acts, 0) == 1 && |acts| > 0 && ActReleases(acts[|acts| - 1]) == 1
    ensures var r := RunActs(acts, 0, State(Created(a0), [], []));
      r.finals == [Final(a0, acts[|acts| - 1] == Release)] && r.rec.cnt == 0
  {
    ActsWithRelease(acts, 0, State(Created(a0), [], []), 0);
  }

  /** Without a drop nothing is finalised and the wrapper is as created. */
  lemma NeverFinalised(acts: seq<Act>, a0: int)
    requires ReleasesIn(acts, 0) == 0
    ensures var r := RunActs(acts, 0, State(Created(a0), [], []));
      r.finals == [] && r.rec == Created(a0)
  {
    ActsRestore(acts, 0, State(Created(a0), [], []));
  }

  // ---------------------------------------------------------------------
  // Calls after the finalisation

  /** Every finalisation logged from position `n` on runs `d` on a zero
      pointer. */
  predicate NullFrom(f: seq<Final>, n: nat) {
    n <= |f| && forall k :: n <= k < |f| ==> f[k] == Final(0, false)
  }

  /** A call made after the closure was finalised, with no call in flight:
      `f` gets 0, and the `finally` brings the count back to 0 and runs `d`
      on 0. */
  lemma {:induction false} DeadCall(c: Call, st: State)
    requires Releases(c) == 0 && st.rec == Rec(0, 0)
    ensures RunCall(c, st).rec == Rec(0, 0)
    ensures RunCall(c, st).finals == st.finals + [Final(0, false)]
  {
    var inside := State(Rec(0, 1), st.payloads + [0], st.finals);
    ActsRestore(c.body, 0, inside);
  }

  lemma {:induction false} DeadActs(acts: seq<Act>, i: nat, st: State)
    requires i <= |acts| && ReleasesIn(acts, i) == 0 && st.rec == Rec(0, 0)
    ensures var r := RunActs(acts, i, st);
      && r.rec == Rec(0, 0)
      && |st.finals| <= |r.finals| && r.finals[..|st.finals|] == st.finals
      && NullFrom(r.finals, |st.finals|)
    decreases |acts| - i
  {
    if i < |acts| {
      match acts[i] {
        case Invoke(c) => assert c < acts[i]; DeadCall(c, st);
        case Release => assert false;
      }
      var next := RunAct(acts[i], st);
      DeadActs(acts, i + 1, next);
      var r := RunActs(acts, i + 1, next);
      assert r.finals[..|st.finals|] == r.finals[..|next.finals|][..|st.finals|];
    }
  }

  /** The top-level acts from `i` on, with no call in flight and the
      wrapper still holding `a0`, drop the handle once. */
  lemma {:induction false} LiveActs(acts: seq<Act>, i: nat, st: State, a0: int)
    requires i <= |acts| && ReleasesIn(acts, i) == 1 && st.rec == Rec(a0, 1)
    ensures var r := RunActs(acts, i, st);
      && r.rec == Rec(0, 0)
      && |st.finals| < |r.finals| && r.finals[..|st.finals|] == st.finals
      && r.finals[|st.finals|].payload == a0
      && NullFrom(r.finals, |st.finals| + 1)
    decreases |acts| - i
  {
    var next := RunAct(acts[i], st);
    if ActReleases(acts[i]) == 0 {
      match acts[i] {
        case Invoke(c) => assert c < acts[i]; CallRestores(c, st);
        case Release => assert false;
      }
      LiveActs(acts, i + 1, next, a0);
    } else {
      match acts[i] {
        case Invoke(c) =>
          assert c < acts[i];
          CallWithRelease(c, st, 0);
          ActsZero(c.body, 0, State(Rec(0, 2), st.payloads + [a0], st.finals));
        case Release =>
      }
      assert next.finals == st.finals + [Final(a0, acts[i] == Release)];
      DeadActs(acts, i + 1, next);
      var r := RunActs(acts, i + 1, next);
      assert r.finals[..|st.finals|] == r.finals[..|next.finals|][..|st.finals|];
      assert r.finals[|st.finals|] == r.finals[..|next.finals|][|st.finals|];
    }
  }

  /** From a fresh wrapper, any run of calls and drops that drops the handle
      once, calls after the drop included, finalises the closure's pointer
      exactly once: the first finalisation carries `a0`, and every later
      one (one per call begun after it) runs `d` on 0. */
  lemma AnyTrace(acts: seq<Act>, a0: int)
    requires ReleasesIn(acts, 0) == 1
    ensures var r := RunActs(acts, 0, State(Created(a0), [], []));
      && |r.finals| >= 1 && r.finals[0].payload == a0
      && NullFrom(r.finals, 1) && r.rec == Rec(0, 0)
  {
    LiveActs(acts, 0, State(Created(a0), [], []), a0);
  }

  /** Why a call after the drop is excluded: it hands `f` a zeroed pointer
      and its `finally` runs `d` a second time. */
  lemma CallAfterDrop(a0: int)
    ensures var r := RunActs([Release, Invoke(Call([]))], 0, State(Created(a0), [], []));
      r.payloads == [0] && r.finals == [Final(a0, true), Final(0, false)]
  {
  }
}
