/** Modes of lib/repl-base/mode.js: per-name candidate lists of commands,
    newest first, looked up through a chain of parent modes; overload
    resolution, help, dispatch and completion over those candidates. */
module Modes {
  import opened Values
  import opened Dicts
  import opened Utils
  import opened Types
  import opened Commands

  /** `prefix` followed by each element of `s` it does not hold yet, in the
      order of first occurrence: the keys of an object whose keys were
      `prefix` after assigning to each element of `s` in turn. */
  function AppendNew<T(==,!new)>(prefix: seq<T>, s: seq<T>): (r: seq<T>)
    ensures forall x :: x in r <==> x in prefix || x in s
    ensures |prefix| <= |r| && r[..|prefix|] == prefix
  {
    if s == [] then prefix
    else
      var d := AppendNew(prefix, s[..|s| - 1]);
      assert forall x :: x in s <==> x in s[..|s| - 1] || x == s[|s| - 1];
      if s[|s| - 1] in d then d else d + [s[|s| - 1]]
  }

  /** Assigning the keys `a` and then the keys `b` is assigning `a + b`. */
  lemma {:induction false} AppendNewConcat<T(!new)>(prefix: seq<T>, a: seq<T>, b: seq<T>)
    ensures AppendNew(AppendNew(prefix, a), b) == AppendNew(prefix, a + b)
  {
    if b != [] {
      var b' := b[..|b| - 1];
      AppendNewConcat(prefix, a, b');
      assert (a + b)[..|a + b| - 1] == a + b';
      assert (a + b)[|a + b| - 1] == b[|b| - 1];
    } else {
      assert a + b == a;
    }
  }

  /** The position of the first occurrence of `x` in `s`, or `|s|`. */
  function FirstIndex<T(==)>(s: seq<T>, x: T): (i: nat)
    ensures i <= |s| && (i < |s| ==> s[i] == x)
    ensures forall j :: 0 <= j < i ==> s[j] != x
  {
    if s == [] then 0 else if s[0] == x then 0 else 1 + FirstIndex(s[1..], x)
  }

  /** `new Set(items)` iterated in order: every element once, in the order
      of its first occurrence. */
  function Dedup<T(==,!new)>(s: seq<T>): (r: seq<T>)
    ensures forall x :: x in r <==> x in s
    ensures forall i, j :: 0 <= i < j < |r| ==> r[i] != r[j]
    ensures forall i, j :: 0 <= i < j < |r| ==> FirstIndex(s, r[i]) < FirstIndex(s, r[j])
  {
    var r := AppendNew([], s);
    DedupOrder(s, r);
    r
  }

  /** Keeping first occurrences keeps them in the order they occur. */
  lemma {:induction false} DedupOrder<T(!new)>(s: seq<T>, r: seq<T>)
    requires r == AppendNew([], s)
    ensures forall i, j :: 0 <= i < j < |r| ==> r[i] != r[j]
    ensures forall i, j :: 0 <= i < j < |r| ==> FirstIndex(s, r[i]) < FirstIndex(s, r[j])
  {
    if s != [] {
      var t, y := s[..|s| - 1], s[|s| - 1];
      var d := AppendNew([], t);
      DedupOrder(t, d);
      assert s == t + [y];
      if y in d {
        assert r == d;
        forall i, j | 0 <= i < j < |r|
          ensures FirstIndex(s, r[i]) < FirstIndex(s, r[j])
        {
          FirstIndexSnoc(t, y, r[i]);
          FirstIndexSnoc(t, y, r[j]);
        }
      } else {
        assert r == d + [y];
        FirstIndexNew(t, y);
        forall i, j | 0 <= i < j < |r|
          ensures r[i] != r[j] && FirstIndex(s, r[i]) < FirstIndex(s, r[j])
        {
          assert r[i] == d[i];
          FirstIndexSnoc(t, y, r[i]);
          if j < |d| {
            assert r[j] == d[j];
            FirstIndexSnoc(t, y, r[j]);
          }
        }
      }
    }
  }

  /** An element of `t` occurs first where it did before a new last element. */
  lemma FirstIndexSnoc<T>(t: seq<T>, y: T, x: T)
    requires x in t
    ensures FirstIndex(t, x) < |t| && FirstIndex(t + [y], x) == FirstIndex(t, x)
  {
    var p := FirstIndex(t, x);
    assert (t + [y])[p] == x;
  }

  /** A new last element occurs first at the end. */
  lemma FirstIndexNew<T>(t: seq<T>, y: T)
    requires y !in t
    ensures FirstIndex(t + [y], y) == |t|
  {
    assert (t + [y])[|t|] == y;
  }

  /** How often `k` occurs in `s`. */
  function Count(k: string, s: seq<string>): (n: nat)
    ensures n > 0 <==> k in s
  {
    if s == [] then 0
    else
      assert k in s <==> k in s[..|s| - 1] || k == s[|s| - 1];
      Count(k, s[..|s| - 1]) + (if s[|s| - 1] == k then 1 else 0)
  }

  function Copies(c: Command, n: nat): (r: seq<Command>)
    ensures |r| == n && forall i :: 0 <= i < n ==> r[i] == c
  {
    seq(n, _ => c)
  }

  /** `actions[n] || []`: the candidates a table holds for `n`. */
  function Candidates(actions: Dict<seq<Command>>, n: string): seq<Command>
  {
    match Get(actions, n)
    case Some(l) => l
    case None => []
  }

  class Mode {
    const parent: Mode?
    /** Height above the root of the parent chain, so that the chain is finite. */
    ghost const depth: nat
    /** `this.actions`: the candidates for each name, newest first. */
    var actions: Dict<seq<Command>>

    ghost predicate Acyclic()
      decreases depth
    {
      parent != null ==> parent.depth < depth && parent.Acyclic()
    }

    /** This mode and its ancestors. */
    ghost function Chain(): set<Mode>
      requires Acyclic()
      decreases depth
    {
      {this} + if parent == null then {} else parent.Chain()
    }

    /** Every candidate list holds a command: lists are created only to
        receive one. */
    ghost predicate Filled()
      reads this
    {
      forall i :: 0 <= i < |actions| ==> actions[i].1 != []
    }

    ghost predicate ChainFilled()
      requires Acyclic()
      reads Chain()
      decreases depth
    {
      Filled() && (parent != null ==> parent.ChainFilled())
    }

    constructor(parent: Mode?)
      requires parent != null ==> parent.Acyclic()
      ensures this.parent == parent && actions == []
      ensures Acyclic() && Chain() == {this} + (if parent == null then {} else parent.Chain())
    {
      this.parent := parent;
      depth := if parent == null then 0 else parent.depth + 1;
      actions := [];
    }

    /** Every mode of the chain is allocated, so calls that allocate or
        change nothing leave the chain's functions as they were. */
    lemma ChainAllocated()
      requires Acyclic()
      ensures forall m :: m in Chain() ==> allocated(m)
      decreases depth
    {
      if parent != null {
        parent.ChainAllocated();
      }
    }

    /** Every mode of the chain has a finite chain inside this one. */
    lemma ChainClosed()
      requires Acyclic()
      ensures forall x :: x in Chain() ==> x.Acyclic() && x.Chain() <= Chain()
      decreases depth
    {
      if parent != null {
        parent.ChainClosed();
      }
    }

    /** `this.actions[n] || []`. */
    function Own(n: string): seq<Command>
      reads this
    {
      Candidates(actions, n)
    }

    /** `getActions(n)`: this mode's candidates for `n`, then the parent's. */
    function GetActions(n: string): seq<Command>
      requires Acyclic()
      reads Chain()
      decreases depth
    {
      Own(n) + (if parent == null then [] else parent.GetActions(n))
    }

    /** `availableActionNames()`: the parent's names, then this mode's keys. */
    function AvailableActionNames(): seq<string>
      requires Acyclic()
      reads Chain()
      decreases depth
    {
      (if parent == null then [] else parent.AvailableActionNames()) + Keys(actions)
    }

    /** `allActions()`: every command of the chain, the parent's first,
        each once. */
    function AllActions(): seq<Command>
      requires Acyclic()
      reads Chain()
      decreases depth
    {
      Dedup((if parent == null then [] else parent.AllActions()) + Flatten(ValueList(actions)))
    }

    /** `parse(n, parts)`: resolution among the chain's candidates for `n`. */
    function Parse(n: string, env: Env, parts: seq<string>): Resolution
      requires Acyclic()
      reads Chain()
    {
      Resolve(n, GetActions(n), AvailableActionNames(), env, parts)
    }

    /** The completion of the tokens `parts`: every available name while
        no action name is complete, else the completion of its arguments. */
    function CompletionOf(env: Env, parts: seq<string>): Completion
      requires Acyclic()
      reads Chain()
    {
      match Recognise(parts, AvailableActionNames())
      case None => Completion(AvailableActionNames(), LastOf(parts))
      case Some(r) => CompleteArgs(GetActions(r.0), env, r.1, r.2)
    }

    /** `help(n)`: the usage of every command named or aliased `n`. */
    function Help(n: string): string
      requires Acyclic()
      reads Chain()
    {
      var cs := Named(AllActions(), n);
      Join(seq(|cs|, i requires 0 <= i < |cs| => Usage(cs[i])), "\n")
    }

    /** `_defineAction(name, c)`: creates the list for `name` if there is
        none and puts `c` at its front. */
    method DefineAction(name: string, c: Command)
      modifies this
      ensures actions == Put(old(actions), name, [c] + old(Own(name)))
      ensures Own(name) == [c] + old(Own(name))
      ensures forall k :: k != name ==> Own(k) == old(Own(k))
      ensures Keys(actions) == AppendNew(old(Keys(actions)), [name])
      ensures old(Filled()) ==> Filled()
    {
      if Get(actions, name).None? {
        actions := Put(actions, name, []);
        GetPut(old(actions), name, [], name);
      }
      var l := Own(name);
      assert l == old(Own(name));
      PutPut(old(actions), name, [], [c] + l);
      actions := Put(actions, name, [c] + l);
      forall k
        ensures Own(k) == if k == name then [c] + l else old(Own(k))
      {
        GetPut(old(actions), name, [c] + l, k);
      }
    }

    /** `add(c)`: defines `c` under its name and then under each alias, and
        returns this mode for chaining. */
    method Add(c: Command) returns (m: Mode)
      modifies this
      ensures m == this
      ensures forall k :: Own(k) == Copies(c, Count(k, [c.name] + c.aliases)) + old(Own(k))
      ensures forall k :: k in [c.name] + c.aliases ==> Own(k) != [] && Own(k)[0] == c
      ensures forall k :: k !in [c.name] + c.aliases ==> Own(k) == old(Own(k))
      ensures Keys(actions) == AppendNew(old(Keys(actions)), [c.name] + c.aliases)
      ensures old(Filled()) ==> Filled()
    {
      var names := [c.name] + c.aliases;
      ghost var orig := actions;
      var j := 0;
      while j < |names|
        invariant 0 <= j <= |names|
        invariant forall k :: Own(k) == Copies(c, Count(k, names[..j])) + Candidates(orig, k)
        invariant Keys(actions) == AppendNew(Keys(orig), names[..j])
        invariant old(Filled()) ==> Filled()
      {
        AddName(c, names, j, orig);
        j := j + 1;
      }
      assert names[..j] == names;
      m := this;
    }

    /** One round of `add`'s loop: `names[j]` defined as `c` on top of
        what `orig` and the earlier names left. */
    method AddName(c: Command, names: seq<string>, j: nat, ghost orig: Dict<seq<Command>>)
      requires j < |names|
      requires forall k :: Own(k) == Copies(c, Count(k, names[..j])) + Candidates(orig, k)
      requires Keys(actions) == AppendNew(Keys(orig), names[..j])
      modifies this
      ensures forall k :: Own(k) == Copies(c, Count(k, names[..j + 1])) + Candidates(orig, k)
      ensures Keys(actions) == AppendNew(Keys(orig), names[..j + 1])
      ensures old(Filled()) ==> Filled()
    {
      assert names[..j] + [names[j]] == names[..j + 1];
      AppendNewConcat(Keys(orig), names[..j], [names[j]]);
      DefineAction(names[j], c);
      forall k
        ensures Own(k) == Copies(c, Count(k, names[..j + 1])) + Candidates(orig, k)
      {
        AddStep(c, k, names, j, old(Own(k)), Own(k), Candidates(orig, k));
      }
    }

    /** `suggest(parts)`: pops the partial token, shifts the action name
        (or takes the partial token as the action name when it is one
        already), then completes from the first candidate that binds the
        completed tokens without error. */
    method Suggest(env: Env, parts: seq<string>) returns (c: Completion)
      requires Acyclic()
      ensures c == CompletionOf(env, parts)
    {
      var rest := parts;
      var last := "";
      if |rest| > 0 {
        last := rest[|rest| - 1];
        rest := rest[..|rest| - 1];
      }
      var available := AvailableActionNames();
      var actionName;
      if |rest| == 0 {
        if last !in available {
          return Completion(available, last);
        }
        actionName := last;
        last := "";
      } else {
        actionName := rest[0];
        rest := rest[1..];
      }
      assert Recognise(parts, available) == Some((actionName, rest, last));
      ghost var typed, partial := rest, last;
      var cands := GetActions(actionName);
      ChainAllocated();
      var i := FindCandidate(cands, env, rest);
      if i == |cands| {
        c := Completion([], last);
      } else {
        var types := cands[i].params;
        if |rest| < |types| {
          var terms := Types.Suggest(types[|rest|], env, last);
          if last in terms {
            rest := rest + [last];
            last := "";
            if |rest| < |types| {
              c := Completion(Types.Suggest(types[|rest|], env, last), last);
            } else {
              c := Completion([], last);
            }
          } else {
            c := Completion(terms, last);
          }
        } else {
          c := Completion([], last);
        }
      }
      assert c == CompleteArgs(cands, env, typed, partial);
    }

    /** While at most one token is typed, completion offers every visible
        action name unless that token is one of them; a complete action
        name goes on to the completion of its first argument. */
    lemma NameCompletion(env: Env, parts: seq<string>)
      requires Acyclic() && |parts| <= 1
      ensures LastOf(parts) !in AvailableActionNames() ==>
                CompletionOf(env, parts) == Completion(AvailableActionNames(), LastOf(parts))
      ensures LastOf(parts) in AvailableActionNames() ==>
                CompletionOf(env, parts) == CompleteArgs(GetActions(LastOf(parts)), env, [], "")
    {
      assert parts == [] || parts[..|parts| - 1] == [];
    }

    /** Past the first token, the first token is the action name, the
        tokens after it are completed arguments and the last is partial,
        whether or not the action name is known. */
    lemma ArgumentCompletion(env: Env, parts: seq<string>)
      requires Acyclic() && |parts| >= 2
      ensures CompletionOf(env, parts)
              == CompleteArgs(GetActions(parts[0]), env, parts[1..|parts| - 1], parts[|parts| - 1])
    {
      assert parts[..|parts| - 1][1..] == parts[1..|parts| - 1];
    }

    /** A name no mode of the chain defines gets exactly one error, naming
        it and listing the names that are available; a name the chain
        defines always reaches its candidates. */
    lemma UnknownActionIff(n: string, env: Env, parts: seq<string>)
      requires Acyclic() && ChainFilled()
      ensures n !in AvailableActionNames()
              ==> Parse(n, env, parts) == Failed([UnknownAction(n, AvailableActionNames())])
      ensures n in AvailableActionNames() ==> GetActions(n) != []
    {
      NoCandidatesIff(n);
    }

    /** `help(n)` lists, once each, exactly the commands of the chain named
        or aliased `n`. */
    lemma HelpCommands(n: string)
      requires Acyclic()
      ensures var cs := Named(AllActions(), n);
        && (forall c :: c in cs <==> ((c.name == n || n in c.aliases)
              && exists m, i :: m in Chain() && 0 <= i < |m.actions| && c in m.actions[i].1))
        && (forall i, j :: 0 <= i < j < |cs| ==> cs[i] != cs[j])
        && (forall i, j :: 0 <= i < j < |cs| ==> FirstIndex(AllActions(), cs[i]) < FirstIndex(AllActions(), cs[j]))
    {
      forall c {
        AllActionsMembers(c);
      }
      NamedOrder(AllActions(), n);
    }

    /** A name has candidates somewhere in the chain exactly when it is
        among the names the chain makes available. */
    lemma {:induction false} NoCandidatesIff(n: string)
      requires Acyclic() && ChainFilled()
      ensures GetActions(n) == [] <==> n !in AvailableActionNames()
      decreases depth
    {
      assert Own(n) == [] <==> n !in Keys(actions) by {
        if n in Keys(actions) {
          var i := IndexOf(actions, n);
          assert actions[i].1 != [];
        }
      }
      if parent != null {
        parent.NoCandidatesIff(n);
      }
    }

    /** `allActions()` holds exactly the commands listed in some mode of the
        chain, under any name. */
    lemma {:induction false} AllActionsMembers(c: Command)
      requires Acyclic()
      ensures c in AllActions()
              <==> exists m, i :: m in Chain() && 0 <= i < |m.actions| && c in m.actions[i].1
      decreases depth
    {
      FlattenMembers(ValueList(actions), c);
      if parent != null {
        parent.AllActionsMembers(c);
      }
      if c in Flatten(ValueList(actions)) {
        var i :| 0 <= i < |actions| && c in ValueList(actions)[i];
        assert this in Chain() && c in actions[i].1;
      }
    }
  }

  /** One more definition under a name adds one more copy in front. */
  lemma AddStep(c: Command, k: string, names: seq<string>, j: nat,
                before: seq<Command>, after: seq<Command>, orig: seq<Command>)
    requires j < |names|
    requires before == Copies(c, Count(k, names[..j])) + orig
    requires after == (if names[j] == k then [c] + before else before)
    ensures after == Copies(c, Count(k, names[..j + 1])) + orig
  {
    assert names[..j + 1][..j] == names[..j];
  }

  lemma {:induction false} FlattenMembers<T>(lists: seq<seq<T>>, x: T)
    ensures x in Flatten(lists) <==> exists i :: 0 <= i < |lists| && x in lists[i]
  {
    if lists != [] {
      FlattenMembers(lists[1..], x);
      if x in Flatten(lists[1..]) {
        var i :| 0 <= i < |lists[1..]| && x in lists[1..][i];
        assert x in lists[i + 1];
      }
      if exists i :: 1 <= i < |lists| && x in lists[i] {
        var i :| 1 <= i < |lists| && x in lists[i];
        assert x in lists[1..][i - 1];
      }
    }
  }

  /** The commands of `cs` named or aliased `n`, in order. */
  function Named(cs: seq<Command>, n: string): (r: seq<Command>)
    ensures forall c :: c in r <==> c in cs && (c.name == n || n in c.aliases)
    ensures (forall i, j :: 0 <= i < j < |cs| ==> cs[i] != cs[j])
            ==> forall i, j :: 0 <= i < j < |r| ==> r[i] != r[j]
  {
    if cs == [] then []
    else (if cs[0].name == n || n in cs[0].aliases then [cs[0]] else []) + Named(cs[1..], n)
  }

  /** The commands `Named` keeps stay in the order they have in a list
      without repetitions. */
  lemma {:induction false} NamedOrder(cs: seq<Command>, n: string)
    requires forall i, j :: 0 <= i < j < |cs| ==> cs[i] != cs[j]
    ensures forall i, j :: 0 <= i < j < |Named(cs, n)| ==> FirstIndex(cs, Named(cs, n)[i]) < FirstIndex(cs, Named(cs, n)[j])
  {
    if cs != [] {
      var tail := Named(cs[1..], n);
      DistinctTail(cs);
      NamedOrder(cs[1..], n);
      assert forall x :: x in tail ==> x in cs[1..];
      OrderShift(cs, tail);
      if cs[0].name == n || n in cs[0].aliases {
        assert Named(cs, n) == [cs[0]] + tail;
        OrderHead(cs, tail);
      } else {
        assert Named(cs, n) == tail;
      }
    }
  }

  /** Elements of `cs[1..]` listed in their order there are listed in
      their order in `cs`. */
  lemma OrderShift<T>(cs: seq<T>, tail: seq<T>)
    requires cs != []
    requires forall i, j :: 0 <= i < j < |cs| ==> cs[i] != cs[j]
    requires forall x :: x in tail ==> x in cs[1..]
    requires forall i, j :: 0 <= i < j < |tail| ==> FirstIndex(cs[1..], tail[i]) < FirstIndex(cs[1..], tail[j])
    ensures forall i, j :: 0 <= i < j < |tail| ==> FirstIndex(cs, tail[i]) < FirstIndex(cs, tail[j])
  {
    forall i, j | 0 <= i < j < |tail|
      ensures FirstIndex(cs, tail[i]) < FirstIndex(cs, tail[j])
    {
      assert tail[i] in tail && tail[j] in tail;
      PairOrder(cs, tail[i], tail[j]);
    }
  }

  /** `cs[0]` in front of elements of `cs[1..]` listed in their order in
      `cs` keeps the list in order. */
  lemma OrderHead<T>(cs: seq<T>, tail: seq<T>)
    requires cs != []
    requires forall i, j :: 0 <= i < j < |cs| ==> cs[i] != cs[j]
    requires forall x :: x in tail ==> x in cs[1..]
    requires forall i, j :: 0 <= i < j < |tail| ==> FirstIndex(cs, tail[i]) < FirstIndex(cs, tail[j])
    ensures forall i, j :: 0 <= i < j < |[cs[0]] + tail| ==> FirstIndex(cs, ([cs[0]] + tail)[i]) < FirstIndex(cs, ([cs[0]] + tail)[j])
  {
    var r := [cs[0]] + tail;
    forall i, j | 0 <= i < j < |r|
      ensures FirstIndex(cs, r[i]) < FirstIndex(cs, r[j])
    {
      assert r[j] == tail[j - 1] && tail[j - 1] in tail;
      if i == 0 {
        HeadFirst(cs, tail[j - 1]);
      } else {
        assert r[i] == tail[i - 1];
      }
    }
  }

  /** The rest of a list without repetitions has none either. */
  lemma DistinctTail<T>(cs: seq<T>)
    requires cs != []
    requires forall i, j :: 0 <= i < j < |cs| ==> cs[i] != cs[j]
    ensures forall i, j :: 0 <= i < j < |cs[1..]| ==> cs[1..][i] != cs[1..][j]
  {
    forall i, j | 0 <= i < j < |cs[1..]|
      ensures cs[1..][i] != cs[1..][j]
    {
      assert cs[1..][i] == cs[i + 1] && cs[1..][j] == cs[j + 1];
    }
  }

  /** Two elements of `cs[1..]` keep their relative order in `cs`. */
  lemma PairOrder<T>(cs: seq<T>, a: T, b: T)
    requires cs != [] && a in cs[1..] && b in cs[1..]
    requires forall i, j :: 0 <= i < j < |cs| ==> cs[i] != cs[j]
    requires FirstIndex(cs[1..], a) < FirstIndex(cs[1..], b)
    ensures FirstIndex(cs, a) < FirstIndex(cs, b)
  {
    FirstIndexTail(cs, a);
    FirstIndexTail(cs, b);
  }

  /** `cs[0]` comes before every element of `cs[1..]`. */
  lemma HeadFirst<T>(cs: seq<T>, b: T)
    requires cs != [] && b in cs[1..]
    requires forall i, j :: 0 <= i < j < |cs| ==> cs[i] != cs[j]
    ensures FirstIndex(cs, cs[0]) < FirstIndex(cs, b)
  {
    FirstIndexTail(cs, b);
  }

  /** In a list without repetitions, an element after the first is found
      one position further on than in the rest of the list. */
  lemma FirstIndexTail<T>(cs: seq<T>, c: T)
    requires cs != [] && c in cs[1..]
    requires forall i, j :: 0 <= i < j < |cs| ==> cs[i] != cs[j]
    ensures FirstIndex(cs, c) == 1 + FirstIndex(cs[1..], c)
  {
    var k :| 0 <= k < |cs[1..]| && cs[1..][k] == c;
    assert cs[k + 1] == c && cs[0] != cs[k + 1];
  }

  /** What `parse` returns: the one candidate that bound cleanly with its
      binding, or the errors to report. */
  datatype Resolution = Resolved(command: Command, binding: Binding) | Failed(errors: seq<string>)

  function UnknownAction(n: string, available: seq<string>): string
  {
    "Action " + n + " not known.\n\tKnown actions are " + Join(available, ", ")
  }

  /** `matchingActions`: every candidate's binding of the same tokens. */
  function Bindings(cands: seq<Command>, env: Env, parts: seq<string>): (bs: seq<Binding>)
    ensures |bs| == |cands|
    ensures forall i :: 0 <= i < |cands| ==> bs[i] == Bound(cands[i].params, env, parts)
  {
    seq(|cands|, i requires 0 <= i < |cands| => Bound(cands[i].params, env, parts))
  }

  /** `successfulParses`: the candidates whose binding is clean, in order,
      each with its binding. */
  function Successful(cands: seq<Command>, bs: seq<Binding>): seq<(Command, Binding)>
    requires |cands| == |bs|
  {
    if bs == [] then []
    else (if bs[0].Clean() then [(cands[0], bs[0])] else []) + Successful(cands[1..], bs[1..])
  }

  /** The usages of all candidates, one per line. */
  function Usages(cands: seq<Command>): string
  {
    Join(seq(|cands|, i requires 0 <= i < |cands| => Usage(cands[i])), "\n")
  }

  /** The errors of the failed bindings, concatenated in candidate order. */
  function FailedErrors(bs: seq<Binding>): seq<string>
  {
    Flatten(seq(|bs|, i requires 0 <= i < |bs| => if bs[i].Clean() then [] else bs[i].errors))
  }

  /** `parse(n, parts)` over the candidates `cands` for `n`. */
  function Resolve(n: string, cands: seq<Command>, available: seq<string>, env: Env,
                   parts: seq<string>): Resolution
  {
    if cands == [] then Failed([UnknownAction(n, available)])
    else
      var bs := Bindings(cands, env, parts);
      var ok := Successful(cands, bs);
      if |ok| == 1 then Resolved(ok[0].0, ok[0].1)
      else if |ok| > 1 then Failed(["Ambiguous command: " + n, Usages(cands)])
      else Failed(FailedErrors(bs) + [Usages(cands)])
  }

  /** What `exec` does with a resolution. */
  datatype Step = Report(errors: seq<string>) | Invoke(handler: Handler, args: seq<Value>) | Silent

  /** `exec`: report every error when there is one, else apply the
      resolved command to its arguments. */
  function Dispatch(r: Resolution): Step
  {
    match r
    case Failed(errors) => if errors != [] then Report(errors) else Silent
    case Resolved(c, b) => if b.errors != [] then Report(b.errors) else Invoke(c.handler, b.args)
  }

  /** Candidate `i` is the one candidate whose binding is clean. */
  predicate OnlyClean(bs: seq<Binding>, i: int)
  {
    0 <= i < |bs| && bs[i].Clean() && forall j :: 0 <= j < |bs| && bs[j].Clean() ==> j == i
  }

  lemma {:induction false} SuccessfulNone(cands: seq<Command>, bs: seq<Binding>)
    requires |cands| == |bs|
    ensures Successful(cands, bs) == [] <==> forall i :: 0 <= i < |bs| ==> !bs[i].Clean()
  {
    if bs != [] {
      SuccessfulNone(cands[1..], bs[1..]);
      assert forall i :: 1 <= i < |bs| ==> bs[i] == bs[1..][i - 1];
    }
  }

  lemma {:induction false} SuccessfulOne(cands: seq<Command>, bs: seq<Binding>)
    requires |cands| == |bs|
    ensures |Successful(cands, bs)| == 1 <==> exists i :: OnlyClean(bs, i)
    ensures forall i :: OnlyClean(bs, i) ==> Successful(cands, bs) == [(cands[i], bs[i])]
  {
    if bs != [] {
      var tc, tb := cands[1..], bs[1..];
      SuccessfulOne(tc, tb);
      SuccessfulNone(tc, tb);
      assert forall i :: 1 <= i < |bs| ==> bs[i] == tb[i - 1] && cands[i] == tc[i - 1];
      if bs[0].Clean() {
        assert OnlyClean(bs, 0) <==> forall i :: 0 <= i < |tb| ==> !tb[i].Clean();
        forall i | OnlyClean(bs, i)
          ensures i == 0
        {
        }
      } else {
        forall i | OnlyClean(bs, i)
          ensures OnlyClean(tb, i - 1)
        {
        }
        forall i | OnlyClean(tb, i)
          ensures OnlyClean(bs, i + 1)
        {
        }
      }
    }
  }

  lemma {:induction false} SuccessfulTwo(cands: seq<Command>, bs: seq<Binding>, i: nat, j: nat)
    requires |cands| == |bs|
    requires i < j < |bs| && bs[i].Clean() && bs[j].Clean()
    ensures |Successful(cands, bs)| >= 2
  {
    var tc, tb := cands[1..], bs[1..];
    if i == 0 {
      SuccessfulNone(tc, tb);
      assert tb[j - 1].Clean();
    } else {
      SuccessfulTwo(tc, tb, i - 1, j - 1);
    }
  }

  /** `parse` returns a candidate exactly when that candidate is the only
      one whose binding has no error and is complete; it returns it with
      that binding. */
  lemma ResolvedIff(n: string, cands: seq<Command>, available: seq<string>, env: Env, parts: seq<string>)
    ensures var r := Resolve(n, cands, available, env, parts);
      var bs := Bindings(cands, env, parts);
      && (r.Resolved? <==> exists i :: OnlyClean(bs, i))
      && (r.Resolved? ==> exists i :: OnlyClean(bs, i) && r.command == cands[i] && r.binding == bs[i])
  {
    SuccessfulOne(cands, Bindings(cands, env, parts));
  }

  /** Every failure carries at least one error; when there were
      candidates, the last error lists their usages, one per line. */
  lemma FailureShape(n: string, cands: seq<Command>, available: seq<string>, env: Env, parts: seq<string>)
    ensures var r := Resolve(n, cands, available, env, parts);
      && (r.Failed? ==> r.errors != [])
      && (r.Failed? && cands != [] ==> r.errors[|r.errors| - 1] == Usages(cands))
  {
  }

  /** Two or more clean bindings: the command is ambiguous. */
  lemma AmbiguousCommand(n: string, cands: seq<Command>, available: seq<string>, env: Env,
                         parts: seq<string>, i: nat, j: nat)
    requires i < j < |cands|
    requires Bound(cands[i].params, env, parts).Clean() && Bound(cands[j].params, env, parts).Clean()
    ensures Resolve(n, cands, available, env, parts)
            == Failed(["Ambiguous command: " + n, Usages(cands)])
  {
    SuccessfulTwo(cands, Bindings(cands, env, parts), i, j);
  }

  /** No clean binding: every candidate's errors, in candidate order, then
      the usages. */
  lemma NoCleanBinding(n: string, cands: seq<Command>, available: seq<string>, env: Env, parts: seq<string>)
    requires cands != []
    requires forall i :: 0 <= i < |cands| ==> !Bound(cands[i].params, env, parts).Clean()
    ensures Resolve(n, cands, available, env, parts)
            == Failed(Flatten(seq(|cands|, i requires 0 <= i < |cands| =>
                                  Bound(cands[i].params, env, parts).errors))
                      + [Usages(cands)])
  {
    var bs := Bindings(cands, env, parts);
    SuccessfulNone(cands, bs);
    assert seq(|bs|, i requires 0 <= i < |bs| => if bs[i].Clean() then [] else bs[i].errors)
           == seq(|cands|, i requires 0 <= i < |cands| => Bound(cands[i].params, env, parts).errors);
  }

  /** `exec` applies a handler exactly when `parse` resolved, to the
      resolved binding's arguments; otherwise it reports every error. */
  lemma DispatchResolution(n: string, cands: seq<Command>, available: seq<string>, env: Env,
                           parts: seq<string>)
    ensures var r := Resolve(n, cands, available, env, parts);
      && (Dispatch(r).Invoke? <==> r.Resolved?)
      && (r.Resolved? ==> Dispatch(r) == Invoke(r.command.handler, r.binding.args))
      && (r.Failed? ==> Dispatch(r) == Report(r.errors))
  {
    var r := Resolve(n, cands, available, env, parts);
    FailureShape(n, cands, available, env, parts);
    if r.Resolved? {
      ResolvedIff(n, cands, available, env, parts);
    }
  }

  datatype Completion = Completion(terms: seq<string>, last: string)

  /** `parts.pop() || ''`. */
  function LastOf(parts: seq<string>): string
  {
    if parts == [] then "" else parts[|parts| - 1]
  }

  /** The action name, the completed argument tokens and the partial token
      of a line being typed; None while no action name is complete. */
  function Recognise(parts: seq<string>, available: seq<string>): Option<(string, seq<string>, string)>
  {
    var last := LastOf(parts);
    var before := if parts == [] then [] else parts[..|parts| - 1];
    if before == [] then
      (if last in available then Some((last, [], "")) else None)
    else Some((before[0], before[1..], last))
  }

  /** The first candidate whose binding of `typed` has no error (it may be
      incomplete), or `|cands|`. */
  function FirstNoErrors(cands: seq<Command>, env: Env, typed: seq<string>): (i: nat)
    ensures i <= |cands|
    ensures forall j :: 0 <= j < i ==> Bound(cands[j].params, env, typed).errors != []
    ensures i < |cands| ==> Bound(cands[i].params, env, typed).errors == []
  {
    if cands == [] then 0
    else if Bound(cands[0].params, env, typed).errors == [] then 0
    else 1 + FirstNoErrors(cands[1..], env, typed)
  }

  /** `matchingActions(...).filter(no errors)[0]`: binds the candidates in
      turn and stops at the first without error. */
  method FindCandidate(cands: seq<Command>, env: Env, typed: seq<string>) returns (i: nat)
    ensures i == FirstNoErrors(cands, env, typed)
  {
    i := 0;
    while i < |cands|
      invariant 0 <= i <= |cands|
      invariant forall j :: 0 <= j < i ==> Fails(cands[j], env, typed)
    {
      var clean := BindsCleanly(cands[i], env, typed);
      if clean {
        FirstNoErrorsAt(cands, env, typed, i);
        return;
      }
      i := i + 1;
    }
    FirstNoErrorsAt(cands, env, typed, i);
  }

  /** Whether the binding of `c` to the typed tokens has errors. */
  ghost predicate Fails(c: Command, env: Env, typed: seq<string>)
  {
    Bound(c.params, env, typed).errors != []
  }

  /** Binds `c` to the typed tokens and tells whether that gave no error. */
  method BindsCleanly(c: Command, env: Env, typed: seq<string>) returns (clean: bool)
    ensures clean <==> !Fails(c, env, typed)
  {
    var b := Bind(c, env, typed);
    clean := b.errors == [];
  }

  /** `FirstNoErrors` is the index before which every candidate fails and
      at which one succeeds, if any. */
  lemma FirstNoErrorsAt(cands: seq<Command>, env: Env, typed: seq<string>, i: nat)
    requires i <= |cands|
    requires forall j :: 0 <= j < i ==> Fails(cands[j], env, typed)
    requires i < |cands| ==> !Fails(cands[i], env, typed)
    ensures FirstNoErrors(cands, env, typed) == i
  {
  }

  /** Completion once the action name is known. */
  function CompleteArgs(cands: seq<Command>, env: Env, typed: seq<string>, last: string): Completion
  {
    var i := FirstNoErrors(cands, env, typed);
    if i == |cands| then Completion([], last)
    else
      var ps := cands[i].params;
      var k := |typed|;
      if k >= |ps| then Completion([], last)
      else
        var ts := Types.Suggest(ps[k], env, last);
        if last in ts then
          Completion(if k + 1 < |ps| then Types.Suggest(ps[k + 1], env, "") else [], "")
        else Completion(ts, last)
  }

  /** Completion offers nothing, and keeps the partial token, when no
      candidate binds the completed tokens without error or when the
      first that does has no parameter left for the partial token. */
  lemma NothingToComplete(cands: seq<Command>, env: Env, typed: seq<string>, last: string)
    ensures FirstNoErrors(cands, env, typed) == |cands|
            ==> CompleteArgs(cands, env, typed, last) == Completion([], last)
    ensures FirstNoErrors(cands, env, typed) < |cands|
            && |typed| >= |cands[FirstNoErrors(cands, env, typed)].params|
            ==> CompleteArgs(cands, env, typed, last) == Completion([], last)
  {
  }

  /** A partial token that is one of its parameter's suggestions is
      committed: completion moves on to the next parameter's suggestions
      for the empty token, or offers nothing after the final parameter. */
  lemma PartialCommitted(cands: seq<Command>, env: Env, typed: seq<string>, last: string, i: nat)
    requires i == FirstNoErrors(cands, env, typed) && i < |cands|
    requires |typed| < |cands[i].params|
    requires last in Types.Suggest(cands[i].params[|typed|], env, last)
    ensures |typed| + 1 == |cands[i].params| ==> CompleteArgs(cands, env, typed, last) == Completion([], "")
    ensures |typed| + 1 < |cands[i].params| ==>
              CompleteArgs(cands, env, typed, last)
              == Completion(Types.Suggest(cands[i].params[|typed| + 1], env, ""), "")
  {
  }

  /** Whatever completion offers comes from one parameter of a candidate
      that binds the completed tokens without error: the parameter at the
      number of completed tokens, or the one after it, and then only when
      the partial token was one of the first's suggestions, which is
      committed (the partial token becomes empty). Advancing never skips
      more than one parameter. */
  lemma CompletionSource(cands: seq<Command>, env: Env, typed: seq<string>, last: string)
    requires CompleteArgs(cands, env, typed, last).terms != []
    ensures var c := CompleteArgs(cands, env, typed, last);
      exists i, k :: 0 <= i < |cands| && Bound(cands[i].params, env, typed).errors == []
        && (forall j :: 0 <= j < i ==> Bound(cands[j].params, env, typed).errors != [])
        && |typed| <= k <= |typed| + 1 && k < |cands[i].params|
        && (k == |typed| ==> c == Completion(Types.Suggest(cands[i].params[k], env, last), last)
                             && last !in c.terms)
        && (k == |typed| + 1 ==> c == Completion(Types.Suggest(cands[i].params[k], env, ""), "")
                                 && last in Types.Suggest(cands[i].params[k - 1], env, last))
  {
    var c := CompleteArgs(cands, env, typed, last);
    var i := FirstNoErrors(cands, env, typed);
    var ps := cands[i].params;
    var k := |typed|;
    if last in Types.Suggest(ps[k], env, last) {
      assert |typed| + 1 < |ps|;
    } else {
      assert k < |ps|;
    }
  }
}
