/** Commands of lib/repl-base/command.js: a name, typed parameters, a
    handler, a help text and aliases; the binding of a line's tokens to the
    parameters (`parse`), the usage line, and the built-in commands. */
module Commands {
  import opened Values
  import opened Utils
  import opened Types

  /** The handler a command runs. The shell's own handlers are named; the
      handlers of contract functions are opaque identifiers. */
  datatype Handler =
    | Exit | RunFile | Ignore | PrintLine | SetPrompt
    | ShowHelp | UseMode
    | Become | AddressBookSet | AddressBookShow | StoreContract
    | Foreign(id: nat)

  datatype Command = Command(
    name: string,
    params: seq<Type>,
    handler: Handler,
    help: string,
    aliases: seq<string>)

  /** What `parse` returns: the bound arguments, every error met, and
      whether the tokens ran out before the parameters did. */
  datatype Binding = Binding(args: seq<Value>, errors: seq<string>, incomplete: bool)
  {
    /** A binding `exec` may apply: no error and nothing missing. */
    predicate Clean()
    {
      errors == [] && !incomplete
    }
  }

  /** `quoteIfHasSpace`: only the space character triggers quoting. */
  function QuoteIfHasSpace(a: string): string
  {
    if ' ' in a then "\"" + a + "\"" else a
  }

  /** The single argument a `rest` parameter receives. */
  function Requote(tokens: seq<string>): string
  {
    Join(seq(|tokens|, i requires 0 <= i < |tokens| => QuoteIfHasSpace(tokens[i])), " ")
  }

  function UnusedError(args: seq<string>): string
  {
    "Unused arguments: " + Join(args, " ")
  }

  /** What binding `args` to the parameters `params` yields: each parameter
      takes one token through its type's parser, a `rest` parameter takes
      all that remain, running out of tokens stops the binding as
      incomplete, and tokens left over are one error. */
  function Bound(params: seq<Type>, env: Env, args: seq<string>): Binding
    decreases |params|
  {
    if params == [] then
      Binding([], if args == [] then [] else [UnusedError(args)], false)
    else if args == [] then
      Binding([], [], true)
    else if params[0] == RestType then
      var b := Bound(params[1..], env, []);
      Binding([Str(Requote(args))] + b.args, b.errors, b.incomplete)
    else
      var r := Parse(params[0], env, args[0]);
      var b := Bound(params[1..], env, args[1..]);
      Binding([r.ValueOrUndefined()] + b.args, r.Errors() + b.errors, b.incomplete)
  }

  /** `command.parse(params)`: walks the parameter types once, shifting
      tokens off a copy of the caller's list. */
  method Bind(c: Command, env: Env, tokens: seq<string>) returns (b: Binding)
    ensures b == Bound(c.params, env, tokens)
  {
    var result: seq<Value> := [];
    var errors: seq<string> := [];
    var args := tokens;
    var incomplete := false;
    var i := 0;
    while i < |c.params|
      invariant 0 <= i <= |c.params| && !incomplete
      invariant Bound(c.params, env, tokens) == Extended(result, errors, Bound(c.params[i..], env, args))
    {
      if |args| == 0 {
        BindStop(c.params[i..], env, result, errors);
        incomplete := true;
        break;
      }
      BindStep(c.params[i..], env, args, result, errors);
      assert c.params[i..][0] == c.params[i] && c.params[i..][1..] == c.params[i + 1..];
      if c.params[i] == RestType {
        result := result + [Str(Requote(args))];
        args := [];
      } else {
        var r := Parse(c.params[i], env, args[0]);
        args := args[1..];
        result := result + [r.ValueOrUndefined()];
        errors := errors + r.Errors();
      }
      i := i + 1;
    }
    if !incomplete {
      assert c.params[i..] == [];
      if |args| > 0 {
        errors := errors + [UnusedError(args)];
      } else {
        assert errors + [] == errors;
      }
      assert result + [] == result;
    }
    b := Binding(result, errors, incomplete);
  }

  /** The binding of the remaining parameters, after the arguments and
      errors gathered so far. */
  function Extended(result: seq<Value>, errors: seq<string>, rest: Binding): Binding
  {
    Binding(result + rest.args, errors + rest.errors, rest.incomplete)
  }

  /** Running out of tokens before the parameters ends the binding as incomplete. */
  lemma BindStop(params: seq<Type>, env: Env, result: seq<Value>, errors: seq<string>)
    requires params != []
    ensures Extended(result, errors, Bound(params, env, [])) == Binding(result, errors, true)
  {
    assert result + [] == result && errors + [] == errors;
  }

  /** One parameter of the binding loop: the token it takes (or the whole
      remainder for `rest`) moves to the gathered arguments and errors. */
  lemma BindStep(params: seq<Type>, env: Env, args: seq<string>, result: seq<Value>, errors: seq<string>)
    requires params != [] && args != []
    ensures params[0] == RestType ==>
      Extended(result, errors, Bound(params, env, args))
      == Extended(result + [Str(Requote(args))], errors, Bound(params[1..], env, []))
    ensures params[0] != RestType ==>
      var r := Parse(params[0], env, args[0]);
      Extended(result, errors, Bound(params, env, args))
      == Extended(result + [r.ValueOrUndefined()], errors + r.Errors(), Bound(params[1..], env, args[1..]))
  {
    if params[0] == RestType {
      var next := Bound(params[1..], env, []);
      assert result + ([Str(Requote(args))] + next.args) == (result + [Str(Requote(args))]) + next.args;
    } else {
      var r := Parse(params[0], env, args[0]);
      var next := Bound(params[1..], env, args[1..]);
      assert result + ([r.ValueOrUndefined()] + next.args) == (result + [r.ValueOrUndefined()]) + next.args;
      assert errors + (r.Errors() + next.errors) == (errors + r.Errors()) + next.errors;
    }
  }

  /** `command.usage()`: "Syntax: name <t1> <t2> ...", then a new line, a
      tab and the help text when there is one. */
  function Usage(c: Command): string
  {
    "Syntax: " + c.name + " "
    + Join(seq(|c.params|, i requires 0 <= i < |c.params| => ToString(c.params[i])), " ")
    + (if c.help != "" then "\n\t" + c.help else "")
  }

  // The built-in commands every shell may add.

  const PromptCommand := Command("prompt", [StringType], SetPrompt,
    "Sets the prompt string that appears at the start of an input line.", [])
  const RunCommand := Command("run", [FileType], RunFile, "Runs a file of commands.", [])
  const CommentCommand := Command("#", [RestType], Ignore, "Ignores the rest of the line.", [])
  const ExitCommand := Command("exit", [], Exit, "Quits.", [])
  const PrintCommand := Command("print", [RestType], PrintLine, "Displays the message.", [])

  /** Index of the first `rest` parameter, or the number of parameters. */
  function FirstRest(params: seq<Type>): (k: nat)
    ensures k <= |params|
    ensures forall j :: 0 <= j < k ==> params[j] != RestType
    ensures k < |params| ==> params[k] == RestType
  {
    if params == [] || params[0] == RestType then 0 else 1 + FirstRest(params[1..])
  }

  /** How many parameters take a single token each: those before the first
      `rest`, as far as the tokens reach. */
  function Singles(params: seq<Type>, args: seq<string>): nat
  {
    var k := FirstRest(params);
    if k < |args| then k else |args|
  }

  /** Whether a `rest` parameter receives the remaining (non-empty) tokens. */
  predicate RestTaken(params: seq<Type>, args: seq<string>)
  {
    FirstRest(params) < |params| && FirstRest(params) < |args|
  }

  /** Binding without tokens: complete only when there is no parameter. */
  lemma BoundWithoutTokens(params: seq<Type>, env: Env)
    ensures Bound(params, env, []) == Binding([], [], params != [])
  {
  }

  /** The parses of the single-token parameters, in order. */
  function SingleParses(params: seq<Type>, env: Env, args: seq<string>): (rs: seq<ParseResult>)
    ensures |rs| == Singles(params, args)
  {
    var n := Singles(params, args);
    seq(n, i requires 0 <= i < n => Parse(params[i], env, args[i]))
  }

  lemma SingleParsesStep(params: seq<Type>, env: Env, args: seq<string>)
    requires params != [] && args != [] && params[0] != RestType
    ensures SingleParses(params, env, args)
            == [Parse(params[0], env, args[0])] + SingleParses(params[1..], env, args[1..])
    ensures SingleParses(params, env, args)[1..] == SingleParses(params[1..], env, args[1..])
  {
    SingleParsesTail(params, env, args);
    var rs := SingleParses(params, env, args);
    assert rs == [rs[0]] + rs[1..];
  }

  /** Past the first single parameter, the parses are those of the rest. */
  lemma SingleParsesTail(params: seq<Type>, env: Env, args: seq<string>)
    requires params != [] && args != [] && params[0] != RestType
    ensures SingleParses(params, env, args) != []
    ensures SingleParses(params, env, args)[1..] == SingleParses(params[1..], env, args[1..])
  {
    var rs := SingleParses(params, env, args);
    var tail := SingleParses(params[1..], env, args[1..]);
    assert FirstRest(params) == 1 + FirstRest(params[1..]);
    assert |rs| == 1 + |tail|;
    forall i | 0 <= i < |tail|
      ensures rs[1..][i] == tail[i]
    {
      assert params[1..][i] == params[i + 1] && args[1..][i] == args[i + 1];
    }
  }

  /** The errors of each parse, in order. */
  function ErrorLists(rs: seq<ParseResult>): seq<seq<string>>
  {
    seq(|rs|, i requires 0 <= i < |rs| => rs[i].Errors())
  }

  lemma ErrorListsCons(rs: seq<ParseResult>)
    requires rs != []
    ensures Flatten(ErrorLists(rs)) == rs[0].Errors() + Flatten(ErrorLists(rs[1..]))
  {
    assert ErrorLists(rs)[1..] == ErrorLists(rs[1..]);
  }

  /** No error is gathered exactly when every parse succeeds. */
  lemma ErrorListsEmpty(rs: seq<ParseResult>)
    ensures Flatten(ErrorLists(rs)) == [] <==> forall i :: 0 <= i < |rs| ==> rs[i].Ok?
  {
    var es := ErrorLists(rs);
    FlattenEmpty(es);
    assert forall i :: 0 <= i < |rs| ==> (es[i] == [] <==> rs[i].Ok?);
  }

  lemma Regroup<T>(a: seq<T>, b: seq<T>, c: seq<T>)
    ensures a + (b + c) == (a + b) + c
  {
  }

  /** The bound arguments: each single parameter's parsed value (undefined
      where its parser failed), then the `rest` argument if one was taken. */
  lemma {:induction false} BoundArgs(params: seq<Type>, env: Env, args: seq<string>)
    ensures var rs := SingleParses(params, env, args);
      Bound(params, env, args).args
      == seq(|rs|, i requires 0 <= i < |rs| => rs[i].ValueOrUndefined())
         + (if RestTaken(params, args) then [Str(Requote(args[FirstRest(params)..]))] else [])
    decreases |params|
  {
    if params == [] || args == [] {
    } else if params[0] == RestType {
      BoundWithoutTokens(params[1..], env);
      assert args[0..] == args;
    } else {
      BoundArgs(params[1..], env, args[1..]);
      SingleParsesStep(params, env, args);
      assert FirstRest(params) == 1 + FirstRest(params[1..]);
      if RestTaken(params, args) {
        assert args[1..][FirstRest(params[1..])..] == args[FirstRest(params)..];
      }
    }
  }

  /** The errors: every error of the single parameters' parses, in order,
      then one "Unused arguments" error exactly when tokens outnumber the
      parameters and none of them is `rest`. */
  lemma {:induction false} BoundErrors(params: seq<Type>, env: Env, args: seq<string>)
    ensures var rs := SingleParses(params, env, args);
      Bound(params, env, args).errors
      == Flatten(ErrorLists(rs))
         + (if FirstRest(params) == |params| && |args| > |params|
            then [UnusedError(args[|params|..])] else [])
    decreases |params|
  {
    if params == [] || args == [] {
    } else if params[0] == RestType {
      BoundWithoutTokens(params[1..], env);
    } else {
      BoundErrors(params[1..], env, args[1..]);
      SingleParsesStep(params, env, args);
      var rs := SingleParses(params, env, args);
      ErrorListsCons(rs);
      assert FirstRest(params) == 1 + FirstRest(params[1..]);
      if |args| > |params| {
        assert args[1..][|params[1..]|..] == args[|params|..];
      }
      var unused := if FirstRest(params) == |params| && |args| > |params|
                    then [UnusedError(args[|params|..])] else [];
      Regroup(rs[0].Errors(), Flatten(ErrorLists(rs[1..])), unused);
    }
  }

  /** Incomplete exactly when some parameter is left without a token: the
      tokens run out before the parameters, or a `rest` parameter took them
      all and parameters follow it. */
  lemma {:induction false} BoundIncomplete(params: seq<Type>, env: Env, args: seq<string>)
    ensures Bound(params, env, args).incomplete
            <==> if RestTaken(params, args) then FirstRest(params) + 1 < |params|
                 else |args| < |params|
    decreases |params|
  {
    if params == [] || args == [] {
    } else if params[0] == RestType {
      BoundWithoutTokens(params[1..], env);
    } else {
      BoundIncomplete(params[1..], env, args[1..]);
      assert FirstRest(params) == 1 + FirstRest(params[1..]);
    }
  }

  lemma {:induction false} FlattenEmpty<T>(lists: seq<seq<T>>)
    ensures Flatten(lists) == [] <==> forall i :: 0 <= i < |lists| ==> lists[i] == []
  {
    if lists != [] {
      FlattenEmpty(lists[1..]);
      assert forall i :: 1 <= i < |lists| ==> lists[i] == lists[1..][i - 1];
    }
  }

  /** As many tokens as parameters, none of them `rest`, every token
      accepted by its parameter's type: binding yields every parsed value,
      no error, and is complete. */
  lemma WellTypedBinding(params: seq<Type>, env: Env, args: seq<string>)
    requires |args| == |params|
    requires forall i :: 0 <= i < |params| ==> params[i] != RestType
    requires forall i :: 0 <= i < |params| ==> Parse(params[i], env, args[i]).Ok?
    ensures Bound(params, env, args)
            == Binding(seq(|params|, i requires 0 <= i < |params| => Parse(params[i], env, args[i]).value), [], false)
  {
    BoundArgs(params, env, args);
    BoundErrors(params, env, args);
    BoundIncomplete(params, env, args);
    var rs := SingleParses(params, env, args);
    assert |rs| == |params|;
    ErrorListsEmpty(rs);
  }

  /** A binding is clean exactly when every single parameter's parse
      succeeds and the tokens fit: as many as parameters, or a final `rest`
      parameter that takes the ones left. */
  lemma CleanIff(params: seq<Type>, env: Env, args: seq<string>)
    ensures Bound(params, env, args).Clean()
            <==> (forall i :: 0 <= i < Singles(params, args) ==> Parse(params[i], env, args[i]).Ok?)
                 && (if RestTaken(params, args) then FirstRest(params) + 1 == |params|
                     else |args| == |params|)
  {
    BoundErrors(params, env, args);
    BoundIncomplete(params, env, args);
    var rs := SingleParses(params, env, args);
    ErrorListsEmpty(rs);
    assert forall i :: 0 <= i < |rs| ==> rs[i] == Parse(params[i], env, args[i]);
  }

  /** A token the `rest` argument carries through a re-split unchanged: a
      plain word, or one with a space, no double quote and no final
      backslash, which the argument wraps in double quotes. */
  predicate Requotable(t: string)
  {
    Plain(t) || (' ' in t && '"' !in t && t[|t| - 1] != '\\')
  }

  lemma RequoteCons(toks: seq<string>)
    requires |toks| >= 2
    ensures Requote(toks) == QuoteIfHasSpace(toks[0]) + " " + Requote(toks[1..])
  {
    var qs := seq(|toks|, i requires 0 <= i < |toks| => QuoteIfHasSpace(toks[i]));
    assert qs[1..] == seq(|toks| - 1, i requires 0 <= i < |toks| - 1 => QuoteIfHasSpace(toks[1..][i]));
  }

  /** One re-quoted token followed by white space (or nothing) splits back
      into the token itself. */
  lemma RequotedToken(t: string, rest: string)
    requires Requotable(t)
    requires rest == [] || IsSpace(rest[0])
    ensures Tokens(QuoteIfHasSpace(t) + rest) == [t] + Tokens(rest)
  {
    if ' ' in t {
      assert !Plain(t) by {
        var k :| 0 <= k < |t| && t[k] == ' ';
        assert IsSpace(t[k]);
      }
      assert EscapedBody(t, '"');
      QuotedToken('"', t, rest);
      assert QuoteIfHasSpace(t) + rest == ['"'] + t + ['"'] + rest;
    } else {
      WordToken(t, rest);
    }
  }

  /** The argument a `rest` parameter receives splits back into the very
      tokens it was built from, as long as each is requotable. */
  lemma {:induction false} RequoteRoundTrip(toks: seq<string>)
    requires forall i :: 0 <= i < |toks| ==> Requotable(toks[i])
    ensures Tokens(Requote(toks)) == toks
  {
    if |toks| == 1 {
      RequoteOne(toks[0]);
    } else if |toks| >= 2 {
      RequoteFirst(toks);
      RequoteRoundTrip(toks[1..]);
    }
  }

  lemma RequoteOne(t: string)
    requires Requotable(t)
    ensures Tokens(Requote([t])) == [t]
  {
    assert Requote([t]) == QuoteIfHasSpace(t) + [];
    RequotedToken(t, []);
  }

  /** The first token of a `rest` argument splits off on its own. */
  lemma RequoteFirst(toks: seq<string>)
    requires |toks| >= 2 && Requotable(toks[0])
    ensures Tokens(Requote(toks)) == [toks[0]] + Tokens(Requote(toks[1..]))
  {
    RequoteCons(toks);
    var tail := Requote(toks[1..]);
    assert Requote(toks) == QuoteIfHasSpace(toks[0]) + (" " + tail);
    RequotedToken(toks[0], " " + tail);
    SkipSpace(" ", tail);
  }

  /** The usage line of a command with one parameter. */
  lemma UsageOfOne(c: Command)
    requires |c.params| == 1
    ensures Usage(c) == "Syntax: " + c.name + " " + ToString(c.params[0])
                        + (if c.help != "" then "\n\t" + c.help else "")
  {
    assert seq(1, i requires 0 <= i < 1 => ToString(c.params[i])) == [ToString(c.params[0])];
  }

  /** A command without parameters keeps the space after its name. */
  lemma ExitUsage()
    ensures Usage(ExitCommand) == "Syntax: exit \n\tQuits."
  {
    assert Join([], " ") == "";
  }
}
