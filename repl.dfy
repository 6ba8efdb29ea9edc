/** The session of lib/repl-base/repl-base.js: the table of modes and the
    current mode with its change notification, line dispatch, the
    completion filter, and the printing rule of script replay. */
module Repl {
  import opened Values
  import opened Dicts
  import opened Utils
  import opened Types
  import opened Commands
  import opened Modes

  /** What the session emits: 'mode-changed' (new, old) and, from the
      domain layer, 'user-changed'. */
  datatype Event = ModeChanged(newMode: string, oldMode: string) | UserChanged(user: string)

  /** How running a line ends: with a value (undefined when nothing is
      returned), with a thrown error, or with the process exiting. */
  datatype Outcome = Done(value: Value) | Thrown(message: string) | Exited

  /** A line of console output: the echo of a script line, a result the
      script runner prints, or text a command writes. */
  datatype Output = Echo(line: string) | Shown(value: Value) | Said(text: string)

  /** The `help` and `use` commands every session defines. */
  const HelpCommand := Command("help", [CommandType], ShowHelp,
    "Finds out the help information for an action.", [])
  const UseCommand := Command("use", [ModeType], UseMode, "Change mode.", [])

  class ReplBase {
    /** `this.modes`: the registered modes by name. */
    var modes: Dict<Mode>
    var currentMode: string
    /** Whether script lines are echoed as they run. */
    var printing: bool
    /** The notifications emitted so far, oldest first. */
    var events: seq<Event>
    /** The registered modes and their ancestors. */
    ghost var Repr: set<Mode>

    ghost predicate Valid()
      reads this, Repr
    {
      && (forall i :: 0 <= i < |modes| ==> modes[i].1 in Repr)
      && (forall m :: m in Repr ==> m.Acyclic() && m.Chain() <= Repr && m.Filled())
    }

    constructor()
      ensures Valid()
      ensures modes == [] && currentMode == "default" && printing && events == [] && Repr == {}
    {
      modes := [];
      currentMode := "default";
      printing := true;
      events := [];
      Repr := {};
    }

    /** The chain of a registered mode is finite and every candidate list
        along it holds a command. */
    lemma ModeValid(m: Mode)
      requires Valid() && m in Repr
      ensures m.Acyclic() && m.ChainFilled()
      decreases m.depth
    {
      if m.parent != null {
        assert m.parent in m.Chain();
        ModeValid(m.parent);
      }
    }

    /** `setMode(n)`: always stores `n`; notifies only a real change. */
    method SetMode(name: string)
      modifies this
      ensures currentMode == name
      ensures events == old(events) + (if old(currentMode) != name then [ModeChanged(name, old(currentMode))] else [])
      ensures modes == old(modes) && printing == old(printing) && Repr == old(Repr)
    {
      var oldMode := currentMode;
      currentMode := name;
      if oldMode != name {
        events := events + [ModeChanged(name, oldMode)];
      }
    }

    /** `emit(e)`: records the event; the listeners are not modelled. */
    method Emit(e: Event)
      modifies this
      ensures events == old(events) + [e]
      ensures modes == old(modes) && currentMode == old(currentMode)
      ensures printing == old(printing) && Repr == old(Repr)
    {
      events := events + [e];
    }

    /** `addMode(n, m)`: registers `m` under `n`, replacing any mode there,
        and returns it. */
    method AddMode(name: string, m: Mode) returns (r: Mode)
      requires Valid()
      requires m.Acyclic() && forall x :: x in m.Chain() ==> x.Filled()
      modifies this
      ensures Valid()
      ensures r == m && modes == Put(old(modes), name, m)
      ensures Repr == old(Repr) + m.Chain()
      ensures currentMode == old(currentMode) && printing == old(printing) && events == old(events)
    {
      m.ChainClosed();
      modes := Put(modes, name, m);
      Repr := Repr + m.Chain();
      r := m;
    }

    /** What `mode(name)` leaves, `m` being the mode it returns: the same
        table when a mode is registered under `name` (and `m` is that
        mode), else the table with the fresh mode `m`, without parent or
        commands, added under `name`. */
    twostate predicate Registered(name: string, new m: Mode)
      reads this, m
    {
      && Get(modes, name) == Some(m)
      && (Get(old(modes), name).Some? ==>
            m == Get(old(modes), name).value && modes == old(modes) && Repr == old(Repr))
      && (Get(old(modes), name).None? ==>
            fresh(m) && m.parent == null && m.actions == []
            && modes == Put(old(modes), name, m) && Repr == old(Repr) + {m})
    }

    /** `mode(n)`: the mode registered under `n`, registering a fresh mode
        without parent first when there is none. */
    method ModeOf(name: string) returns (m: Mode)
      requires Valid()
      modifies this
      ensures Valid() && m in Repr
      ensures forall k :: k in Keys(modes) <==> k in old(Keys(modes)) || k == name
      ensures Registered(name, m)
      ensures currentMode == old(currentMode) && printing == old(printing) && events == old(events)
    {
      var found := Get(modes, name);
      if found.None? {
        var created := new Mode(null);
        m := AddMode(name, created);
      } else {
        m := found.value;
        assert m in Repr by {
          assert IndexOf(modes, name) < |modes|;
        }
      }
      GetPut(old(modes), name, m, name);
    }

    /** The table after `addMode(name, new Mode(mode(parentName)))` made
        from `before`, `n` being the new mode: `n`'s parent is the mode
        `before` registers under `parentName`, or, when there is none, a
        mode without parent registered there first. */
    ghost predicate ChildAdded(before: Dict<Mode>, parentName: string, name: string, n: Mode)
      reads this
    {
      && n.parent != null
      && (Get(before, parentName).Some? ==>
            n.parent == Get(before, parentName).value && modes == Put(before, name, n))
      && (Get(before, parentName).None? ==>
            n.parent.parent == null && modes == Put(Put(before, parentName, n.parent), name, n))
    }

    /** `addMode(name, new Mode(mode(parentName)))`: registers under `name`
        a fresh mode without commands whose parent is the mode registered
        under `parentName` (registered first when missing). */
    method AddChild(name: string, parentName: string) returns (m: Mode)
      requires Valid()
      modifies this
      ensures Valid() && fresh(m) && m.actions == [] && m.parent != null
      ensures Get(modes, name) == Some(m)
      ensures name != parentName ==> Get(modes, parentName) == Some(m.parent)
      ensures ChildAdded(old(modes), parentName, name, m)
      ensures Get(old(modes), parentName).None? ==> fresh(m.parent) && m.parent.actions == []
      ensures currentMode == old(currentMode) && printing == old(printing) && events == old(events)
    {
      ghost var before := modes;
      var parent := ModeOf(parentName);
      ghost var registered := modes;
      m := AddFreshChild(name, parent);
      GetPut(registered, name, m, parentName);
      ChildTable(before, registered, parentName, name, m);
    }

    /** The table lemma behind `AddChild`: `name` added to the table that
        `mode(parentName)` left from `before`. */
    lemma ChildTable(before: Dict<Mode>, mid: Dict<Mode>, parentName: string, name: string, n: Mode)
      requires n.parent != null
      requires Get(before, parentName).Some? ==> n.parent == Get(before, parentName).value && mid == before
      requires Get(before, parentName).None? ==> n.parent.parent == null && mid == Put(before, parentName, n.parent)
      requires modes == Put(mid, name, n)
      ensures ChildAdded(before, parentName, name, n)
    {
    }

    /** `addMode(name, new Mode(parent))`. */
    method AddFreshChild(name: string, parent: Mode) returns (m: Mode)
      requires Valid() && parent in Repr
      modifies this
      ensures Valid() && fresh(m) && m.parent == parent && m.actions == []
      ensures modes == Put(old(modes), name, m) && Get(modes, name) == Some(m)
      ensures currentMode == old(currentMode) && printing == old(printing) && events == old(events)
    {
      ModeValid(parent);
      m := new Mode(parent);
      assert forall x :: x in m.Chain() ==> x == m || x in Repr;
      var _ := AddMode(name, m);
      GetPut(old(modes), name, m, name);
    }

    /** What the session's types read when a line is parsed in mode `m`. */
    function TypeEnv(m: Mode, books: AllianceTypes.Books, contracts: seq<string>,
                     listFiles: string -> seq<string>): Env
      requires m.Acyclic()
      reads this, m.Chain()
    {
      Env(Keys(modes), m.AvailableActionNames(), books, contracts, listFiles)
    }

    /** `exec(line)`: a line without tokens does nothing; otherwise its
        first token names the action, resolved in the current mode against
        the remaining tokens. */
    method Exec(line: string, books: AllianceTypes.Books, contracts: seq<string>,
                listFiles: string -> seq<string>) returns (step: Step, m: Mode?)
      requires Valid()
      modifies this
      ensures Valid()
      ensures Tokens(line) == [] ==> step == Silent && m == null && unchanged(this)
      ensures forall k :: k in Keys(modes) <==> k in old(Keys(modes)) || (Tokens(line) != [] && k == currentMode)
      ensures Tokens(line) != [] ==>
                m != null && m in Repr && Registered(currentMode, m)
                && step == Dispatch(m.Parse(Tokens(line)[0],
                                            TypeEnv(m, books, contracts, listFiles), Tokens(line)[1..]))
      ensures currentMode == old(currentMode) && printing == old(printing) && events == old(events)
    {
      var parts := Split(line);
      if |parts| == 0 {
        return Silent, null;
      }
      var actionName := parts[0];
      parts := parts[1..];
      m := ModeOf(currentMode);
      var env := TypeEnv(m, books, contracts, listFiles);
      step := Dispatch(m.Parse(actionName, env, parts));
    }

    /** `suggest(linePartial)`: the current mode's completion of the
        tokens typed so far, narrowed by the partial token. */
    method Suggest(linePartial: string, books: AllianceTypes.Books, contracts: seq<string>,
                   listFiles: string -> seq<string>) returns (r: Completion, m: Mode)
      requires Valid()
      modifies this
      ensures Valid() && m in Repr && Registered(currentMode, m)
      ensures r == Narrow(m.CompletionOf(TypeEnv(m, books, contracts, listFiles), Tokens(linePartial)))
      ensures currentMode == old(currentMode) && printing == old(printing) && events == old(events)
    {
      var lineParts := Split(linePartial);
      m := ModeOf(currentMode);
      ModeValid(m);
      m.ChainAllocated();
      var c := m.Suggest(TypeEnv(m, books, contracts, listFiles), lineParts);
      r := Narrow(c);
    }
  }

  /** The terms that start with the partial token, ignoring case. */
  function Hits(terms: seq<string>, last: string): (r: seq<string>)
    ensures forall t :: t in r <==> t in terms && StartsWith(Lower(t), Lower(last))
  {
    if terms == [] then []
    else (if StartsWith(Lower(terms[0]), Lower(last)) then [terms[0]] else []) + Hits(terms[1..], last)
  }

  /** The filter `suggest` applies to a mode's completion: keep the terms
      that match the partial token; a single match holding a space is
      offered quoted, completing the whole token; no match keeps every term. */
  function Narrow(c: Completion): Completion
  {
    var hits := Hits(c.terms, c.last);
    if |hits| == 1 && ' ' in hits[0] then Completion(["\"" + hits[0] + "\""], "")
    else Completion(if hits != [] then hits else c.terms, c.last)
  }

  /** Whether a term completes the partial token: a case-insensitive prefix. */
  predicate Matches(t: string, last: string)
  {
    StartsWith(Lower(t), Lower(last))
  }

  /** The completion filter: either a single matching term holding a space
      is offered alone, quoted, replacing the whole partial token, or the
      partial token is kept and exactly the matching terms are offered (all
      terms when none matches). Two different matching terms always keep
      the partial token, no match keeps the completion as it is, and a
      non-empty list of terms never becomes empty. */
  lemma NarrowOutcomes(c: Completion)
    ensures (exists t :: t in c.terms && Matches(t, c.last) && ' ' in t
                         && Narrow(c) == Completion(["\"" + t + "\""], ""))
         || (Narrow(c).last == c.last
             && forall t :: t in Narrow(c).terms
                  <==> t in c.terms && (Matches(t, c.last) || forall u :: u in c.terms ==> !Matches(u, c.last)))
    ensures (exists t, u :: t in c.terms && u in c.terms && t != u && Matches(t, c.last) && Matches(u, c.last))
            ==> Narrow(c).last == c.last
    ensures (forall t :: t in c.terms ==> !Matches(t, c.last)) ==> Narrow(c) == c
    ensures c.terms != [] ==> Narrow(c).terms != []
  {
    var hits := Hits(c.terms, c.last);
    if hits != [] {
      assert hits[0] in hits;
    }
    if exists t, u :: t in c.terms && u in c.terms && t != u && Matches(t, c.last) && Matches(u, c.last) {
      var t, u :| t in c.terms && u in c.terms && t != u && Matches(t, c.last) && Matches(u, c.last);
      assert t in hits && u in hits;
      var a :| 0 <= a < |hits| && hits[a] == t;
      var b :| 0 <= b < |hits| && hits[b] == u;
      assert a != b && |hits| >= 2;
    }
  }

  /** `Hits` is exactly the subsequence of the matching terms: the
      positions `pos` it keeps are increasing, hold its terms in order
      (a term that occurs twice is kept twice), and include every
      position whose term matches. */
  lemma {:induction false} HitsPositions(terms: seq<string>, last: string) returns (pos: seq<nat>)
    ensures |pos| == |Hits(terms, last)|
    ensures forall k :: 0 <= k < |pos| ==> pos[k] < |terms| && terms[pos[k]] == Hits(terms, last)[k]
    ensures forall k, l :: 0 <= k < l < |pos| ==> pos[k] < pos[l]
    ensures forall p :: 0 <= p < |terms| && Matches(terms[p], last) ==> p in pos
  {
    if terms == [] {
      return [];
    }
    var rest := HitsPositions(terms[1..], last);
    var tail := Hits(terms[1..], last);
    var shifted := ShiftPositions(terms, tail, rest);
    var keep := Matches(terms[0], last);
    assert Hits(terms, last) == (if keep then [terms[0]] else []) + tail;
    pos := ConsPositions(terms, tail, shifted, keep);
    forall p | 0 <= p < |terms| && Matches(terms[p], last)
      ensures p in pos
    {
      if p > 0 {
        assert terms[1..][p - 1] == terms[p];
        assert p - 1 in rest;
        assert p in shifted;
      }
    }
  }

  /** Putting position 0 in front of positions above it, when the first
      term is kept. */
  lemma ConsPositions(ts: seq<string>, hs: seq<string>, shifted: seq<nat>, keep: bool) returns (pos: seq<nat>)
    requires ts != [] && |shifted| == |hs|
    requires forall k :: 0 <= k < |shifted| ==> 0 < shifted[k] < |ts| && ts[shifted[k]] == hs[k]
    requires forall k, l :: 0 <= k < l < |shifted| ==> shifted[k] < shifted[l]
    ensures |pos| == |(if keep then [ts[0]] else []) + hs|
    ensures forall k :: 0 <= k < |pos| ==> pos[k] < |ts| && ts[pos[k]] == ((if keep then [ts[0]] else []) + hs)[k]
    ensures forall k, l :: 0 <= k < l < |pos| ==> pos[k] < pos[l]
    ensures forall p :: p in shifted ==> p in pos
    ensures keep ==> 0 in pos
  {
    pos := if keep then [0] + shifted else shifted;
    if keep {
      forall k | 0 < k < |pos|
        ensures ts[pos[k]] == ([ts[0]] + hs)[k]
      {
        assert pos[k] == shifted[k - 1];
      }
    }
  }

  /** Positions in `ts[1..]` moved up by one are positions in `ts`. */
  lemma ShiftPositions(ts: seq<string>, hs: seq<string>, rest: seq<nat>) returns (shifted: seq<nat>)
    requires ts != [] && |rest| == |hs|
    requires forall k :: 0 <= k < |rest| ==> rest[k] < |ts| - 1 && ts[1..][rest[k]] == hs[k]
    requires forall k, l :: 0 <= k < l < |rest| ==> rest[k] < rest[l]
    ensures |shifted| == |hs|
    ensures forall k :: 0 <= k < |shifted| ==> 0 < shifted[k] < |ts| && ts[shifted[k]] == hs[k]
    ensures forall k, l :: 0 <= k < l < |shifted| ==> shifted[k] < shifted[l]
    ensures forall p :: 0 < p < |ts| && p - 1 in rest ==> p in shifted
  {
    shifted := seq(|rest|, k requires 0 <= k < |rest| => rest[k] + 1);
    forall k | 0 <= k < |shifted|
      ensures ts[shifted[k]] == hs[k]
    {
      assert ts[1..][rest[k]] == ts[rest[k] + 1];
    }
    forall p | 0 < p < |ts| && p - 1 in rest
      ensures p in shifted
    {
      var k :| 0 <= k < |rest| && rest[k] == p - 1;
      assert shifted[k] == p;
    }
  }

  /** Whether replay prints the result `v` of the line before: an
      undefined result is skipped when undefined results are ignored. */
  predicate Printed(ignoreUndefined: bool, v: Value)
  {
    v != Undefined || !ignoreUndefined
  }

  /** What `runScript` prints for its first `n` lines, given each line's
      result and what running it wrote: before every line but the first,
      the previous line's result (unless skipped); the line itself when
      echoing; then the line's own output. */
  function Replay(printing: bool, ignoreUndefined: bool, lines: seq<string>,
                  results: seq<Value>, said: seq<seq<Output>>, n: nat): seq<Output>
    requires n <= |lines| && n <= |results| && n <= |said|
  {
    if n == 0 then []
    else
      Replay(printing, ignoreUndefined, lines, results, said, n - 1)
      + Block(printing, ignoreUndefined, lines, results, said, n)
  }

  /** The values in a piece of output that the runner printed. */
  function ShownValues(out: seq<Output>): seq<Value>
  {
    if out == [] then []
    else ShownValues(out[..|out| - 1]) + (if out[|out| - 1].Shown? then [out[|out| - 1].value] else [])
  }

  /** The script lines echoed in a piece of output. */
  function Echoed(out: seq<Output>): seq<string>
  {
    if out == [] then []
    else Echoed(out[..|out| - 1]) + (if out[|out| - 1].Echo? then [out[|out| - 1].line] else [])
  }

  /** Both projections distribute over concatenation. */
  lemma ProjectionsAppend(a: seq<Output>, b: seq<Output>)
    ensures ShownValues(a + b) == ShownValues(a) + ShownValues(b)
    ensures Echoed(a + b) == Echoed(a) + Echoed(b)
  {
    ShownAppend(a, b);
    EchoedAppend(a, b);
  }

  lemma {:induction false} ShownAppend(a: seq<Output>, b: seq<Output>)
    ensures ShownValues(a + b) == ShownValues(a) + ShownValues(b)
    decreases |b|
  {
    if b == [] {
      assert a + b == a;
    } else {
      var init, x := b[..|b| - 1], b[|b| - 1];
      var tail := if x.Shown? then [x.value] else [];
      assert (a + b)[..|a + b| - 1] == a + init && (a + b)[|a + b| - 1] == x;
      ShownAppend(a, init);
      assert ShownValues(a + b) == ShownValues(a + init) + tail;
      assert ShownValues(b) == ShownValues(init) + tail;
    }
  }

  lemma {:induction false} EchoedAppend(a: seq<Output>, b: seq<Output>)
    ensures Echoed(a + b) == Echoed(a) + Echoed(b)
    decreases |b|
  {
    if b == [] {
      assert a + b == a;
    } else {
      var init, x := b[..|b| - 1], b[|b| - 1];
      var tail := if x.Echo? then [x.line] else [];
      assert (a + b)[..|a + b| - 1] == a + init && (a + b)[|a + b| - 1] == x;
      EchoedAppend(a, init);
      assert Echoed(a + b) == Echoed(a + init) + tail;
      assert Echoed(b) == Echoed(init) + tail;
    }
  }


  /** The results kept for printing, in order. */
  function PrintedResults(ignoreUndefined: bool, vs: seq<Value>): seq<Value>
  {
    if vs == [] then []
    else PrintedResults(ignoreUndefined, vs[..|vs| - 1])
         + (if Printed(ignoreUndefined, vs[|vs| - 1]) then [vs[|vs| - 1]] else [])
  }

  /** One line's block of replay output. */
  function Block(printing: bool, ignoreUndefined: bool, lines: seq<string>,
                 results: seq<Value>, said: seq<seq<Output>>, n: nat): seq<Output>
    requires 0 < n <= |lines| && n <= |results| && n <= |said|
  {
    (if n > 1 && Printed(ignoreUndefined, results[n - 2]) then [Shown(results[n - 2])] else [])
    + (if printing then [Echo(lines[n - 1])] else [])
    + said[n - 1]
  }

  /** A line's block echoes the line when echoing, and nothing else. */
  lemma BlockEchoed(printing: bool, ignoreUndefined: bool, lines: seq<string>,
                    results: seq<Value>, said: seq<seq<Output>>, n: nat)
    requires 0 < n <= |lines| && n <= |results| && n <= |said|
    requires forall o :: o in said[n - 1] ==> o.Said?
    ensures Echoed(Block(printing, ignoreUndefined, lines, results, said, n))
            == (if printing then [lines[n - 1]] else [])
  {
    var shown := if n > 1 && Printed(ignoreUndefined, results[n - 2]) then [Shown(results[n - 2])] else [];
    var echo := if printing then [Echo(lines[n - 1])] else [];
    assert Block(printing, ignoreUndefined, lines, results, said, n) == shown + echo + said[n - 1];
    SaidOnly(said[n - 1]);
    EchoedAppend(shown + echo, said[n - 1]);
    EchoedAppend(shown, echo);
    assert Echoed(shown) == [] by {
      if shown != [] {
        Single(shown[0]);
      }
    }
    assert Echoed(echo) == (if printing then [lines[n - 1]] else []) by {
      if echo != [] {
        Single(echo[0]);
      }
    }
  }

  /** A line's block shows the previous line's result unless it is the
      first line or the result is skipped, and nothing else. */
  lemma BlockShown(printing: bool, ignoreUndefined: bool, lines: seq<string>,
                   results: seq<Value>, said: seq<seq<Output>>, n: nat)
    requires 0 < n <= |lines| && n <= |results| && n <= |said|
    requires forall o :: o in said[n - 1] ==> o.Said?
    ensures ShownValues(Block(printing, ignoreUndefined, lines, results, said, n))
            == (if n > 1 && Printed(ignoreUndefined, results[n - 2]) then [results[n - 2]] else [])
  {
    var shown := if n > 1 && Printed(ignoreUndefined, results[n - 2]) then [Shown(results[n - 2])] else [];
    var echo := if printing then [Echo(lines[n - 1])] else [];
    assert Block(printing, ignoreUndefined, lines, results, said, n) == shown + echo + said[n - 1];
    SaidOnly(said[n - 1]);
    ShownAppend(shown + echo, said[n - 1]);
    ShownAppend(shown, echo);
    assert ShownValues(echo) == [] by {
      if echo != [] {
        Single(echo[0]);
      }
    }
    assert ShownValues(shown) == (if n > 1 && Printed(ignoreUndefined, results[n - 2]) then [results[n - 2]] else []) by {
      if shown != [] {
        Single(shown[0]);
      }
    }
  }

  /** The projections of a single output. */
  lemma Single(o: Output)
    ensures ShownValues([o]) == (if o.Shown? then [o.value] else [])
    ensures Echoed([o]) == (if o.Echo? then [o.line] else [])
  {
    assert [o][..0] == [];
  }

  /** Replay echoes exactly the lines run, in order, when echoing, and none
      otherwise. */
  lemma {:induction false} ReplayEchoes(printing: bool, ignoreUndefined: bool, lines: seq<string>,
                                        results: seq<Value>, said: seq<seq<Output>>, n: nat)
    requires n <= |lines| && n <= |results| && n <= |said|
    requires forall i, o :: 0 <= i < n && o in said[i] ==> o.Said?
    ensures printing ==> Echoed(Replay(printing, ignoreUndefined, lines, results, said, n)) == lines[..n]
    ensures !printing ==> Echoed(Replay(printing, ignoreUndefined, lines, results, said, n)) == []
  {
    if n > 0 {
      assert forall o :: o in said[n - 1] ==> o.Said?;
      ReplayEchoes(printing, ignoreUndefined, lines, results, said, n - 1);
      EchoedStep(printing, ignoreUndefined, lines, results, said, n);
      var before := Echoed(Replay(printing, ignoreUndefined, lines, results, said, n - 1));
      if printing {
        assert before == lines[..n - 1];
        assert lines[..n] == lines[..n - 1] + [lines[n - 1]];
      } else {
        assert before == [];
      }
    }
  }

  /** One more line adds its echo, when echoing, to the echoed lines. */
  lemma EchoedStep(printing: bool, ignoreUndefined: bool, lines: seq<string>,
                   results: seq<Value>, said: seq<seq<Output>>, n: nat)
    requires 0 < n <= |lines| && n <= |results| && n <= |said|
    requires forall o :: o in said[n - 1] ==> o.Said?
    ensures Echoed(Replay(printing, ignoreUndefined, lines, results, said, n))
            == Echoed(Replay(printing, ignoreUndefined, lines, results, said, n - 1))
               + (if printing then [lines[n - 1]] else [])
  {
    BlockEchoed(printing, ignoreUndefined, lines, results, said, n);
    ProjectionsAppend(Replay(printing, ignoreUndefined, lines, results, said, n - 1),
                      Block(printing, ignoreUndefined, lines, results, said, n));
  }

  /** Replay prints the results of all lines run but the last, in order,
      leaving out the skipped undefined ones; nothing precedes the first
      line, and the last result is returned rather than printed. */
  lemma {:induction false} ReplayShows(printing: bool, ignoreUndefined: bool, lines: seq<string>,
                                       results: seq<Value>, said: seq<seq<Output>>, n: nat)
    requires 0 < n <= |lines| && n <= |results| && n <= |said|
    requires forall i, o :: 0 <= i < n && o in said[i] ==> o.Said?
    ensures ShownValues(Replay(printing, ignoreUndefined, lines, results, said, n))
            == PrintedResults(ignoreUndefined, results[..n - 1])
  {
    var before := Replay(printing, ignoreUndefined, lines, results, said, n - 1);
    var block := Block(printing, ignoreUndefined, lines, results, said, n);
    assert Replay(printing, ignoreUndefined, lines, results, said, n) == before + block;
    BlockShown(printing, ignoreUndefined, lines, results, said, n);
    ProjectionsAppend(before, block);
    if n > 1 {
      ReplayShows(printing, ignoreUndefined, lines, results, said, n - 1);
      PrintedStep(ignoreUndefined, results, n - 1);
    } else {
      assert results[..n - 1] == [];
    }
  }

  /** The results printed before line `n + 1` are those printed before
      line `n`, then line `n`'s own when it is printed. */
  lemma PrintedStep(ignoreUndefined: bool, results: seq<Value>, n: nat)
    requires 0 < n <= |results|
    ensures PrintedResults(ignoreUndefined, results[..n])
            == PrintedResults(ignoreUndefined, results[..n - 1])
               + (if Printed(ignoreUndefined, results[n - 1]) then [results[n - 1]] else [])
  {
    assert results[..n][..n - 1] == results[..n - 1];
  }

  /** Output written by commands holds neither echoes nor printed results. */
  lemma {:induction false} SaidOnly(out: seq<Output>)
    requires forall o :: o in out ==> o.Said?
    ensures ShownValues(out) == [] && Echoed(out) == []
  {
    if out != [] {
      assert forall o :: o in out[..|out| - 1] ==> o in out;
      assert out[|out| - 1] in out;
      SaidOnly(out[..|out| - 1]);
    }
  }

  /** Replay of the first `n` lines depends only on their results and
      output. */
  lemma {:induction false} ReplayPrefix(printing: bool, ignoreUndefined: bool, lines: seq<string>,
                                        results: seq<Value>, said: seq<seq<Output>>,
                                        results': seq<Value>, said': seq<seq<Output>>, n: nat)
    requires n <= |lines| && n <= |results| && n <= |said| && n <= |results'| && n <= |said'|
    requires results[..n] == results'[..n] && said[..n] == said'[..n]
    ensures Replay(printing, ignoreUndefined, lines, results, said, n)
            == Replay(printing, ignoreUndefined, lines, results', said', n)
  {
    if n > 0 {
      assert results[..n - 1] == results'[..n - 1] by {
        assert results[..n][..n - 1] == results[..n - 1] && results'[..n][..n - 1] == results'[..n - 1];
      }
      assert said[..n - 1] == said'[..n - 1] by {
        assert said[..n][..n - 1] == said[..n - 1] && said'[..n][..n - 1] == said'[..n - 1];
      }
      ReplayPrefix(printing, ignoreUndefined, lines, results, said, results', said', n - 1);
      assert results[n - 1] == results[..n][n - 1] && said[n - 1] == said[..n][n - 1];
      if n > 1 {
        assert results[n - 2] == results[..n][n - 2];
      }
    }
  }
}
