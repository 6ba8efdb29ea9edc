/** The session of lib/repl-alliance.js: a `ReplBase` with two address
    books, the acting user, the base actions of the `none` mode, the
    `become`, `addressBook` and `storeContract` commands, the duplicate
    guard of `addContractByAddress`, line execution and script replay.
    The inherited session is held as `base`. */
module Alliance {
  import opened Values
  import opened Dicts
  import opened Utils
  import opened AllianceTypes
  import opened Types
  import opened Commands
  import opened Modes
  import opened Repl

  const BecomeCommand := Command("become", [UserAddressType], Become,
    "Act as a particular user.", [])
  const AddressBookSetCommand := Command("addressBook", [StringType, AddressType], AddressBookSet,
    "Add an entry into the address book", [])
  const AddressBookShowCommand := Command("addressBook", [], AddressBookShow,
    "Show the entries in the address book", [])
  const StoreContractCommand := Command("storeContract", [StringType, ContractType, AddressType],
    StoreContract,
    "Loads a known contract at an address and stores it under the name provided.  This lets you access it with 'use <name>'.",
    [])

  /** The actions `addBaseActions` adds to the `none` mode, in order. */
  const BaseActions: seq<Command> := [
    ExitCommand, RunCommand, CommentCommand, PrintCommand, HelpCommand, UseCommand,
    BecomeCommand, AddressBookSetCommand, AddressBookShowCommand, StoreContractCommand]

  /** The candidates that adding the commands `cs` in order leaves under
      `k`: every command named or aliased `k` (once per occurrence),
      the last added first. */
  function Defined(cs: seq<Command>, k: string): seq<Command>
  {
    if cs == [] then []
    else
      var c := cs[|cs| - 1];
      Copies(c, Count(k, [c.name] + c.aliases)) + Defined(cs[..|cs| - 1], k)
  }

  /** The names and aliases of the commands `cs`, in the order `add`
      defines them. */
  function NamesOf(cs: seq<Command>): seq<string>
  {
    if cs == [] then [] else NamesOf(cs[..|cs| - 1]) + ([cs[|cs| - 1].name] + cs[|cs| - 1].aliases)
  }

  /** `m.add(cs[0]).add(cs[1])...` on the fresh mode `addBaseActions`
      fills: each command goes to the front of the lists of its name and
      aliases, so every list ends up holding its commands, the last added
      first. */
  method AddAll(m: Mode, cs: seq<Command>)
    requires m.actions == []
    modifies m
    ensures forall k :: m.Own(k) == Defined(cs, k)
    ensures Keys(m.actions) == Dedup(NamesOf(cs))
    ensures m.Filled()
  {
    var i := 0;
    while i < |cs|
      invariant 0 <= i <= |cs|
      invariant forall k :: m.Own(k) == Defined(cs[..i], k)
      invariant Keys(m.actions) == AppendNew([], NamesOf(cs[..i]))
      invariant m.Filled()
    {
      AddNext(m, cs, i);
      i := i + 1;
    }
    assert cs[..i] == cs;
  }

  /** One round of `AddAll`'s loop: `m.add(cs[i])` after `cs[..i]`. */
  method AddNext(m: Mode, cs: seq<Command>, i: nat)
    requires i < |cs|
    requires forall k :: m.Own(k) == Defined(cs[..i], k)
    requires Keys(m.actions) == AppendNew([], NamesOf(cs[..i]))
    requires m.Filled()
    modifies m
    ensures forall k :: m.Own(k) == Defined(cs[..i + 1], k)
    ensures Keys(m.actions) == AppendNew([], NamesOf(cs[..i + 1]))
    ensures m.Filled()
  {
    var _ := m.Add(cs[i]);
    NamesStep(cs, i);
    forall k
      ensures m.Own(k) == Defined(cs[..i + 1], k)
    {
      DefinedStep(cs, i, k);
    }
  }

  /** Adding `cs[i]` after `cs[..i]` appends its new names to the keys. */
  lemma NamesStep(cs: seq<Command>, i: nat)
    requires i < |cs|
    ensures AppendNew(AppendNew([], NamesOf(cs[..i])), [cs[i].name] + cs[i].aliases)
            == AppendNew([], NamesOf(cs[..i + 1]))
  {
    AppendNewConcat([], NamesOf(cs[..i]), [cs[i].name] + cs[i].aliases);
    assert cs[..i + 1][..i] == cs[..i];
  }

  /** Adding `cs[i]` after `cs[..i]` puts its copies in front. */
  lemma DefinedStep(cs: seq<Command>, i: nat, k: string)
    requires i < |cs|
    ensures Defined(cs[..i + 1], k) == Copies(cs[i], Count(k, [cs[i].name] + cs[i].aliases)) + Defined(cs[..i], k)
  {
    assert cs[..i + 1][..i] == cs[..i];
  }

  /** One more command adds its copies in front of the earlier candidates. */
  lemma DefinedSnoc(cs: seq<Command>, c: Command, k: string)
    requires c.aliases == []
    ensures Defined(cs + [c], k) == (if c.name == k then [c] else []) + Defined(cs, k)
  {
    assert (cs + [c])[..|cs|] == cs;
    assert [c.name][..0] == [];
  }

  /** `addressBook` has two candidates in the `none` mode, the listing
      form (added last) first. */
  lemma AddressBookCandidates()
    ensures Defined(BaseActions, "addressBook") == [AddressBookShowCommand, AddressBookSetCommand]
  {
    var early := [ExitCommand, RunCommand, CommentCommand, PrintCommand, HelpCommand, UseCommand, BecomeCommand];
    NotDefined(early, "addressBook");
    DefinedSnoc(early, AddressBookSetCommand, "addressBook");
    DefinedSnoc(early + [AddressBookSetCommand], AddressBookShowCommand, "addressBook");
    DefinedSnoc(early + [AddressBookSetCommand, AddressBookShowCommand], StoreContractCommand, "addressBook");
    assert early + [AddressBookSetCommand] + [AddressBookShowCommand] == early + [AddressBookSetCommand, AddressBookShowCommand];
    assert BaseActions == early + [AddressBookSetCommand, AddressBookShowCommand] + [StoreContractCommand];
  }

  /** The names the `none` mode makes available, in the order its actions
      are added: `addressBook`, defined twice, is listed once. */
  lemma BaseActionNames()
    ensures Dedup(NamesOf(BaseActions)) == ["exit", "run", "#", "print", "help", "use", "become", "addressBook", "storeContract"]
  {
    BaseNames();
    KeepFirstBaseNames();
  }

  lemma BaseNames()
    ensures NamesOf(BaseActions) == ["exit", "run", "#", "print", "help", "use", "become", "addressBook", "addressBook", "storeContract"]
  {
    NamesOfPlain(BaseActions);
  }

  lemma KeepFirstBaseNames()
    ensures AppendNew([], ["exit", "run", "#", "print", "help", "use", "become", "addressBook", "addressBook", "storeContract"])
            == ["exit", "run", "#", "print", "help", "use", "become", "addressBook", "storeContract"]
  {
    var first := ["exit", "run", "#", "print", "help", "use", "become", "addressBook"];
    var tail := ["addressBook", "storeContract"];
    FirstBaseNames(first);
    LastBaseNames(first);
    AppendNewConcat([], first, tail);
    assert first + tail
           == ["exit", "run", "#", "print", "help", "use", "become", "addressBook", "addressBook", "storeContract"];
    assert first + ["storeContract"]
           == ["exit", "run", "#", "print", "help", "use", "become", "addressBook", "storeContract"];
  }

  /** The first eight names differ in their first letters. */
  lemma FirstBaseNames(first: seq<string>)
    requires first == ["exit", "run", "#", "print", "help", "use", "become", "addressBook"]
    ensures AppendNew([], first) == first
  {
    assert forall i, j :: 0 <= i < j < |first| ==> first[i][0] != first[j][0];
    DistinctKept(first);
  }

  /** The second `addressBook` adds nothing; `storeContract` is new. */
  lemma LastBaseNames(first: seq<string>)
    requires first == ["exit", "run", "#", "print", "help", "use", "become", "addressBook"]
    ensures AppendNew(first, ["addressBook", "storeContract"]) == first + ["storeContract"]
  {
    assert "addressBook" in first by {
      assert first[7] == "addressBook";
    }
    assert "storeContract" !in first;
    AppendSingle(first, "addressBook");
    AppendSingle(first, "storeContract");
    AppendNewConcat(first, ["addressBook"], ["storeContract"]);
    assert ["addressBook"] + ["storeContract"] == ["addressBook", "storeContract"];
  }

  /** Assigning one key: kept in place when present, appended otherwise. */
  lemma AppendSingle(p: seq<string>, x: string)
    ensures AppendNew(p, [x]) == if x in p then p else p + [x]
  {
    assert [x][..0] == [];
  }

  /** Elements that are pairwise distinct are all first occurrences. */
  lemma {:induction false} DistinctKept(s: seq<string>)
    requires forall i, j :: 0 <= i < j < |s| ==> s[i] != s[j]
    ensures AppendNew([], s) == s
  {
    if s != [] {
      var t := s[..|s| - 1];
      DistinctKept(t);
      assert s[|s| - 1] !in t;
      assert t + [s[|s| - 1]] == s;
    }
  }

  /** Commands without aliases contribute their names only. */
  lemma {:induction false} NamesOfPlain(cs: seq<Command>)
    requires forall i :: 0 <= i < |cs| ==> cs[i].aliases == []
    ensures NamesOf(cs) == seq(|cs|, i requires 0 <= i < |cs| => cs[i].name)
  {
    if cs != [] {
      NamesOfPlain(cs[..|cs| - 1]);
    }
  }

  /** A name that no command of `cs` carries has no candidates. */
  lemma {:induction false} NotDefined(cs: seq<Command>, k: string)
    requires forall i :: 0 <= i < |cs| ==> cs[i].name != k && cs[i].aliases == []
    ensures Defined(cs, k) == []
  {
    if cs != [] {
      NotDefined(cs[..|cs| - 1], k);
    }
  }

  /** The name `become` gives the acting user: the first key of the user
      book whose address equals `user` ignoring case, unless that key is
      empty; otherwise the address itself. */
  function ActingName(book: Dict<string>, user: string): (r: string)
    ensures r == user || exists i :: 0 <= i < |book| && book[i].0 == r && SameIgnoringCase(book[i].1, user)
    ensures r == if Truthy(AliasOf(book, user)) then AliasOf(book, user).value else user
  {
    if Truthy(AliasOf(book, user)) then AliasOf(book, user).value else user
  }

  /** A user address nobody in the book holds is acted under its own
      name; since `become` also files it under `me`, becoming the same
      address a second time names the user "me". */
  lemma BecomeTwiceIsMe(book: Dict<string>, user: string)
    requires forall i :: 0 <= i < |book| ==> !SameIgnoringCase(book[i].1, user)
    ensures ActingName(book, user) == user
    ensures ActingName(Put(book, "me", user), user) == "me"
  {
    var after := Put(book, "me", user);
    var j := AliasIndex(after, user);
    assert Get(after, "me") == Some(user) by {
      GetPut(book, "me", user, "me");
    }
    assert j < |after| && after[j].0 == "me" by {
      var k := IndexOf(after, "me");
      assert k < |after| && after[k] == ("me", user);
      assert SameIgnoringCase(after[k].1, user);
      assert forall x :: 0 <= x < |after| && after[x].0 != "me" ==> after[x] == book[x];
    }
  }

  /** The listing `addressBook` prints: a tab, then `name<TAB>address`
      per entry, entries separated by a newline and a tab. */
  function BookListing(book: Dict<string>): (r: string)
    ensures book == [] ==> r == "\t"
    ensures |book| == 1 ==> r == "\t" + book[0].0 + "\t" + book[0].1
  {
    "\t" + Join(seq(|book|, i requires 0 <= i < |book| => book[i].0 + "\t" + book[i].1), "\n\t")
  }

  /** The message `addContractByAddress` throws when the name is taken. */
  function DuplicateContract(name: string, known: string, address: string): string
  {
    "A contract called " + name + " is already known - it is at address " + known
    + ", will not overwrite with " + address
  }

  /** The text argument `i` of a handler: arguments come from a clean
      binding of the command's parameters, so the shell's handlers always
      find a string there; any other shape reads as the empty string. */
  function Text(args: seq<Value>, i: nat): string
  {
    if i < |args| && args[i].Str? then args[i].s else ""
  }

  /** The errors `exec` reports, one console line each. */
  function Reported(errors: seq<string>): (out: seq<Output>)
    ensures |out| == |errors| && forall i :: 0 <= i < |out| ==> out[i] == Said(errors[i])
  {
    seq(|errors|, i requires 0 <= i < |errors| => Said(errors[i]))
  }
  /** What a line whose step is `step` yields and writes, whatever state
      it runs in: nothing for a line that resolves to nothing, its errors
      for a report, and for a command what its handler yields and writes
      (one line of text for `help`, `become` and the address book
      listing, a duplicate-contract error or undefined for
      `storeContract`). */
  ghost predicate LineEffect(step: Step, external: (Handler, seq<Value>) -> Outcome, o: Outcome, out: seq<Output>)
  {
    match step
    case Silent => o == Done(Undefined) && out == []
    case Report(errors) => o == Done(Undefined) && out == Reported(errors)
    case Invoke(h, args) =>
      match h
      case Exit => o == Exited && out == []
      case RunFile => o == external(h, args) && out == []
      case Foreign(_) => o == external(h, args) && out == []
      case PrintLine => o == Done(Undefined) && out == [Said(Text(args, 0))]
      case AddressBookSet => o == Done(Str(Text(args, 1))) && out == []
      case StoreContract =>
        && out == []
        && (o == Done(Undefined)
            || exists known :: o == Thrown(DuplicateContract(Text(args, 0), known, Text(args, 2))))
      case ShowHelp => o == Done(Undefined) && |out| == 1 && out[0].Said?
      case Become => o == Done(Undefined) && |out| == 1 && out[0].Said?
      case AddressBookShow => o == Done(Undefined) && |out| == 1 && out[0].Said?
      case Ignore => o == Done(Undefined) && out == []
      case SetPrompt => o == Done(Undefined) && out == []
      case UseMode => o == Done(Undefined) && out == []
  }


  /** The lines of a script file: its text cut at every newline. */
  function Lines(text: string): (r: seq<string>)
    ensures |r| >= 1
  {
    if '\n' !in text then [text]
    else
      var i := NewlineAt(text);
      [text[..i]] + Lines(text[i + 1..])
  }

  /** The lines hold no newline, and joined by newlines give back the text. */
  lemma {:induction false} LinesRoundTrip(text: string)
    ensures forall i :: 0 <= i < |Lines(text)| ==> '\n' !in Lines(text)[i]
    ensures Join(Lines(text), "\n") == text
  {
    if '\n' in text {
      var i := NewlineAt(text);
      var rest := Lines(text[i + 1..]);
      LinesRoundTrip(text[i + 1..]);
      assert text == text[..i] + "\n" + text[i + 1..];
      assert Lines(text) == [text[..i]] + rest;
      assert Join([text[..i]] + rest, "\n") == text[..i] + "\n" + Join(rest, "\n") by {
        assert ([text[..i]] + rest)[1..] == rest;
      }
      forall j | 0 <= j < |Lines(text)|
        ensures '\n' !in Lines(text)[j]
      {
        if j > 0 {
          assert Lines(text)[j] == rest[j - 1];
        }
      }
    }
  }

  /** Position of the first newline. */
  function NewlineAt(text: string): (i: nat)
    requires '\n' in text
    ensures i < |text| && text[i] == '\n' && '\n' !in text[..i]
  {
    if text[0] == '\n' then 0
    else
      assert '\n' in text[1..] by {
        var j :| 0 <= j < |text| && text[j] == '\n';
        assert text[1..][j - 1] == '\n';
      }
      var j := NewlineAt(text[1..]);
      assert text[..j + 1] == [text[0]] + text[1..][..j];
      j + 1
  }

  /** The session the constructor inherits: a base session switched to
      mode `none` without echo, whose mode `none` (created on first use)
      holds the base actions in the order `addBaseActions` adds them. */
  method BaseSession() returns (session: ReplBase)
    ensures session.Valid() && fresh(session)
    ensures !session.printing && session.currentMode == "none" && session.events == []
    ensures Keys(session.modes) == ["none"]
    ensures Get(session.modes, "none").Some?
    ensures var none := Get(session.modes, "none").value;
      none.parent == null && forall k :: none.Own(k) == Defined(BaseActions, k)
  {
    session := new ReplBase();
    session.printing := false;
    session.currentMode := "none";
    var none := new Mode(null);
    AddAll(none, BaseActions);
    var _ := session.AddMode("none", none);
    GetPut([], "none", none, "none");
  }

  /** What the commands can see and change of a session, apart from the
      commands the modes hold: the books, the contract names, the acting
      user, the mode table and the modes of the session (`known`), the
      current mode, the echo flag and the notifications. */
  datatype Session = Session(userBook: Dict<string>, contractBook: Dict<string>, contracts: seq<string>,
                             username: string, userAddress: string,
                             modes: Dict<Mode>, known: set<Mode>, currentMode: string,
                             printing: bool, events: seq<Event>)

  class ReplAlliance {
    /** The inherited session: modes, current mode, echo flag, events. */
    const base: ReplBase
    /** `userAddressBook`: user names to addresses, including `me`. */
    var userBook: Dict<string>
    /** `contractAddressBook`: contract names to addresses. */
    var contractBook: Dict<string>
    /** The names of the project's contracts (`Object.keys(this.contracts)`). */
    var contracts: seq<string>
    var username: string
    var userAddress: string

    ghost predicate Valid()
      reads this, base, base.Repr
    {
      base.Valid()
    }

    /** The books the address types consult. */
    function Books(): Books
      reads this
    {
      AllianceTypes.Books(userBook, contractBook)
    }

    /** The session as it stands. */
    ghost function Now(): Session
      reads this, base
    {
      Session(userBook, contractBook, contracts, username, userAddress,
              base.modes, base.Repr, base.currentMode, base.printing, base.events)
    }

    /** Sets up the session from the address book file: acting as `alice`,
        with `me` filed under her address, no echo, in mode `none`, whose
        actions are the base actions. */
    constructor(addressBook: Dict<string>)
      requires Get(addressBook, "alice").Some?
      ensures Valid() && fresh(base)
      ensures username == "alice" && userAddress == Get(addressBook, "alice").value
      ensures userBook == Put(addressBook, "me", userAddress)
      ensures contractBook == [] && contracts == []
      ensures !base.printing && base.currentMode == "none" && base.events == []
      ensures Keys(base.modes) == ["none"]
      ensures Get(base.modes, "none").Some?
      ensures var none := Get(base.modes, "none").value;
        none.parent == null && forall k :: none.Own(k) == Defined(BaseActions, k)
    {
      var session := BaseSession();
      base := session;
      userBook := Put(addressBook, "me", Get(addressBook, "alice").value);
      contractBook := [];
      contracts := [];
      username := "alice";
      userAddress := Get(addressBook, "alice").value;
    }

    /** `become(user)`: acts as `user`, named after its alias in the user
        book taken before `me` is refiled under it, and emits
        'user-changed'. Returns what it writes. */
    method BecomeUser(user: string) returns (said: string)
      requires Valid()
      modifies this, base
      ensures Valid()
      ensures username == ActingName(old(userBook), user) && userAddress == user
      ensures userBook == Put(old(userBook), "me", user)
      ensures base.events == old(base.events) + [UserChanged(user)]
      ensures said == "Now acting as " + username + "."
      ensures contractBook == old(contractBook) && contracts == old(contracts)
      ensures base.modes == old(base.modes) && base.currentMode == old(base.currentMode)
      ensures base.printing == old(base.printing) && base.Repr == old(base.Repr)
    {
      var alias := ReverseLookup(user, userBook);
      username := if Truthy(alias) then alias.value else user;
      userAddress := user;
      userBook := Put(userBook, "me", userAddress);
      base.Emit(UserChanged(user));
      said := "Now acting as " + username + ".";
    }

    /** `addContractByAddress(name, _, address)` without the contract's
        functions: refuses a name the contract book already holds (with a
        non-empty address) and changes nothing then; otherwise files the
        address and registers a new mode `name` under the `none` mode. */
    method AddContractByAddress(name: string, address: string) returns (o: Outcome)
      requires Valid()
      modifies this, base
      ensures Valid()
      ensures Lookup(old(contractBook), name).Some? ==>
                o == Thrown(DuplicateContract(name, Lookup(old(contractBook), name).value, address))
                && contractBook == old(contractBook) && base.modes == old(base.modes)
      ensures Lookup(old(contractBook), name).None? ==>
                o == Done(Undefined) && contractBook == Put(old(contractBook), name, address)
                && Get(base.modes, name).Some?
                && var m := Get(base.modes, name).value;
                   fresh(m) && m.actions == [] && m.parent != null
                   && (name != "none" ==> Get(base.modes, "none") == Some(m.parent))
                   && base.ChildAdded(old(base.modes), "none", name, m)
      ensures userBook == old(userBook) && contracts == old(contracts)
      ensures username == old(username) && userAddress == old(userAddress)
      ensures base.currentMode == old(base.currentMode) && base.events == old(base.events)
      ensures base.printing == old(base.printing)
    {
      var known := Lookup(contractBook, name);
      if known.Some? {
        return Thrown(DuplicateContract(name, known.value, address));
      }
      contractBook := Put(contractBook, name, address);
      var _ := base.AddChild(name, "none");
      o := Done(Undefined);
    }
  
    /** The acting user and the user book are those of `s`. */
    ghost predicate UserKept(s: Session)
      reads this
    {
      userBook == s.userBook && username == s.username && userAddress == s.userAddress
    }

    /** The contract book and the contract names are those of `s`. */
    ghost predicate ContractsKept(s: Session)
      reads this
    {
      contractBook == s.contractBook && contracts == s.contracts
    }

    /** The current mode and the notifications are those of `s`. */
    ghost predicate ModeKept(s: Session)
      reads base
    {
      base.currentMode == s.currentMode && base.events == s.events
    }

    ghost predicate Kept(s: Session)
      reads this, base
    {
      UserKept(s) && ContractsKept(s) && ModeKept(s)
    }

    /** What running handler `h` on `args` in the current mode `m` of the
        session `s` does: its outcome, what it writes, and the new state.
        `external` gives the outcome of what lies outside the shell:
        running another script file and calling a contract function. */
    ghost predicate Applied(s: Session, h: Handler, args: seq<Value>, m: Mode,
                            external: (Handler, seq<Value>) -> Outcome, o: Outcome, out: seq<Output>)
      requires m.Acyclic()
      reads this, base, m.Chain()
    {
      && (h != StoreContract ==> base.modes == s.modes)
      && match h
      case Exit => o == Exited && out == [] && Kept(s)
      case RunFile => o == external(h, args) && out == [] && Kept(s)
      case Foreign(_) => o == external(h, args) && out == [] && Kept(s)
      case Ignore => o == Done(Undefined) && out == [] && Kept(s)
      case SetPrompt => o == Done(Undefined) && out == [] && Kept(s)
      case PrintLine => o == Done(Undefined) && out == [Said(Text(args, 0))] && Kept(s)
      case ShowHelp => o == Done(Undefined) && out == [Said(m.Help(Text(args, 0)))] && Kept(s)
      case UseMode => o == Done(Undefined) && out == [] && UserKept(s) && ContractsKept(s) && ModeSet(s, Text(args, 0))
      case Become => o == Done(Undefined) && out == [Said("Now acting as " + username + ".")] && Became(s, Text(args, 0))
      case AddressBookSet =>
        && o == Done(Str(Text(args, 1))) && out == [] && ContractsKept(s) && ModeKept(s)
        && userBook == Put(s.userBook, Text(args, 0), Text(args, 1))
        && username == s.username && userAddress == s.userAddress
      case AddressBookShow => o == Done(Undefined) && out == [Said(BookListing(userBook))] && Kept(s)
      case StoreContract => out == [] && UserKept(s) && ModeKept(s) && Stored(s, Text(args, 0), Text(args, 2), o)
    }

    /** `setMode(name)` from `s`: stores the name, notifying a real change
        only. */
    ghost predicate ModeSet(s: Session, name: string)
      reads base
    {
      && base.currentMode == name
      && base.events == s.events + (if s.currentMode != name then [ModeChanged(name, s.currentMode)] else [])
    }

    /** The effect of `become(user)` from `s`. */
    ghost predicate Became(s: Session, user: string)
      reads this, base
    {
      && username == ActingName(s.userBook, user) && userAddress == user
      && userBook == Put(s.userBook, "me", user)
      && base.events == s.events + [UserChanged(user)]
      && base.currentMode == s.currentMode && ContractsKept(s)
    }

    /** The effect of `addContractByAddress(name, _, address)` from `s` on
        the contract names, the contract book and the modes: a new mode
        is one that was not among the session's modes. */
    ghost predicate Stored(s: Session, name: string, address: string, o: Outcome)
      reads this, base
    {
      && contracts == s.contracts
      && (Lookup(s.contractBook, name).Some? ==>
            o == Thrown(DuplicateContract(name, Lookup(s.contractBook, name).value, address))
            && contractBook == s.contractBook && base.modes == s.modes)
      && (Lookup(s.contractBook, name).None? ==>
            && o == Done(Undefined) && contractBook == Put(s.contractBook, name, address)
            && Get(base.modes, name).Some?
            && var n := Get(base.modes, name).value;
               n !in s.known && base.ChildAdded(s.modes, "none", name, n))
    }

    /** Runs handler `h` on `args`, `m` being the current mode. */
    method Apply(h: Handler, args: seq<Value>, m: Mode, external: (Handler, seq<Value>) -> Outcome)
      returns (o: Outcome, out: seq<Output>)
      requires Valid() && m in base.Repr
      modifies this, base
      ensures Valid() && base.printing == old(base.printing)
      ensures m.Acyclic() && Applied(old(Now()), h, args, m, external, o, out)
    {
      base.ModeValid(m);
      match h
      case Exit => o, out := Exited, [];
      case RunFile => o, out := external(h, args), [];
      case Foreign(_) => o, out := external(h, args), [];
      case Ignore => o, out := Done(Undefined), [];
      case SetPrompt => o, out := Done(Undefined), [];
      case PrintLine => o, out := Done(Undefined), [Said(Text(args, 0))];
      case ShowHelp => o, out := Done(Undefined), [Said(m.Help(Text(args, 0)))];
      case UseMode =>
        base.SetMode(Text(args, 0));
        o, out := Done(Undefined), [];
      case Become =>
        var said := BecomeUser(Text(args, 0));
        o, out := Done(Undefined), [Said(said)];
      case AddressBookSet =>
        userBook := Put(userBook, Text(args, 0), Text(args, 1));
        o, out := Done(Str(Text(args, 1))), [];
      case AddressBookShow => o, out := Done(Undefined), [Said(BookListing(userBook))];
      case StoreContract =>
        o := AddContractByAddress(Text(args, 0), Text(args, 2));
        out := [];
    }

    /** `exec(line)`: a line without tokens does nothing and yields
        undefined; otherwise the line is resolved in the current mode
        against the session's types (`step`), errors are written one per
        line and yield undefined, and a resolved command's handler runs. */
    method Exec(line: string, external: (Handler, seq<Value>) -> Outcome)
      returns (o: Outcome, out: seq<Output>, step: Step, m: Mode?, ghost env: Env, ghost mid: Session)
      requires Valid()
      modifies this, base
      ensures Valid() && Executed(old(Now()), line, external, o, out, step, m, env, mid)
    {
      step, m, env := Resolve(line);
      mid := Now();
      if m == null {
        return Done(Undefined), [], step, m, env, mid;
      }
      base.ModeValid(m);
      m.ChainAllocated();
      if step.Invoke? {
        label applying:
        o, out := Apply(step.handler, step.args, m, external);
        assert unchanged@applying(m.Chain());
      } else {
        o := Done(Undefined);
        out := if step.Report? then Reported(step.errors) else [];
      }
    }

    /** What `exec(line)` did from the session `s`, yielding `o` and
        writing `out`: once the line has tokens, `m` is the current mode,
        looked up (and registered when missing, which leaves the session
        `mid`), `env` the types the line was parsed against and `step` how
        it resolved; a report or a line without tokens changes nothing
        more, and a resolved command's handler runs from `mid` as
        `Applied` says. */
    ghost predicate Executed(s: Session, line: string, external: (Handler, seq<Value>) -> Outcome,
                             o: Outcome, out: seq<Output>, step: Step, m: Mode?, env: Env, mid: Session)
      reads this, base, if m != null && m.Acyclic() then m.Chain() else {}
    {
      && base.printing == s.printing
      && mid == s.(modes := mid.modes, known := mid.known)
      && (Tokens(line) == [] ==> step == Silent && o == Done(Undefined) && out == [] && mid == s)
      && (Tokens(line) != [] ==>
            && m != null && m.Acyclic()
            && Registration(s.modes, s.currentMode, m, mid.modes)
            && env.books == AllianceTypes.Books(s.userBook, s.contractBook) && env.contracts == s.contracts
            && env.actionNames == m.AvailableActionNames()
            && env.modeNames == Keys(mid.modes)
            && step == Dispatch(m.Parse(Tokens(line)[0], env, Tokens(line)[1..])))
      && (step.Report? ==> o == Done(Undefined) && out == Reported(step.errors) && Kept(s) && base.modes == mid.modes)
      && (step.Silent? ==> o == Done(Undefined) && out == [] && Kept(s) && base.modes == mid.modes)
      && (step.Invoke? ==> m != null && m.Acyclic() && Applied(mid, step.handler, step.args, m, external, o, out))
    }

    /** `table` is what `mode(name)` makes of `before`, `m` being the mode
        it returns: `before` itself when `name` is registered there (and
        `m` is that mode), else `before` with `m` added under `name`. */
    ghost predicate Registration(before: Dict<Mode>, name: string, m: Mode, table: Dict<Mode>)
    {
      && Get(table, name) == Some(m)
      && (Get(before, name).Some? ==> table == before)
      && (Get(before, name).None? ==> table == Put(before, name, m))
    }

    /** The resolving half of `exec`: tokenizes the line and resolves it in
        the current mode, registering that mode when it is missing. */
    method Resolve(line: string) returns (step: Step, m: Mode?, ghost env: Env)
      requires Valid()
      modifies base
      ensures Valid() && Now() == old(Now()).(modes := base.modes, known := base.Repr)
      ensures Tokens(line) == [] ==> step == Silent && m == null && Now() == old(Now())
      ensures Tokens(line) != [] ==>
                && m != null && m in base.Repr && m.Acyclic()
                && Registration(old(base.modes), base.currentMode, m, base.modes)
                && env.books == Books() && env.contracts == contracts
                && env.actionNames == m.AvailableActionNames()
                && env.modeNames == Keys(base.modes)
                && step == Dispatch(m.Parse(Tokens(line)[0], env, Tokens(line)[1..]))
    {
      step, m := base.Exec(line, Books(), contracts, _ => []);
      if m == null {
        env := Env([], [], Books(), contracts, _ => []);
      } else {
        env := base.TypeEnv(m, Books(), contracts, _ => []);
      }
    }
  
    /** One iteration of `runScript`: prints the previous line's result
        (unless it is skipped), echoes the line when echo is on, then runs
        the line as `exec` does. */
    method ScriptLine(line: string, first: bool, ignoreUndefined: bool, previous: Outcome,
                      external: (Handler, seq<Value>) -> Outcome)
      returns (r: Outcome, block: seq<Output>, written: seq<Output>,
               step: Step, m: Mode?, ghost env: Env, ghost mid: Session)
      requires Valid() && (!first ==> previous.Done?)
      modifies this, base
      ensures Valid() && Executed(old(Now()), line, external, r, written, step, m, env, mid)
      ensures LineEffect(step, external, r, written)
      ensures block == (if !first && Printed(ignoreUndefined, previous.value) then [Shown(previous.value)] else [])
                       + (if old(base.printing) then [Echo(line)] else [])
                       + written
    {
      var shown := if !first && Printed(ignoreUndefined, previous.value) then [Shown(previous.value)] else [];
      var echo := if base.printing then [Echo(line)] else [];
      r, written, step, m, env, mid := Exec(line, external);
      if step.Invoke? && step.handler == StoreContract && Lookup(old(contractBook), Text(step.args, 0)).Some? {
        var name := Text(step.args, 0);
        assert r == Thrown(DuplicateContract(name, Lookup(old(contractBook), name).value, Text(step.args, 2)));
      }
      block := shown + echo + written;
    }

    /** `runScript(file)` on the file's text: runs its lines strictly in
        order, before each line but the first printing the previous
        line's result (unless undefined results are ignored and it is
        undefined) and echoing the line when echo is on; stops at the
        first line that throws or exits, and otherwise yields the last
        line's result. `outcomes` are the lines' outcomes in order and
        `said` what each wrote. */
    method RunScript(text: string, ignoreUndefined: bool, external: (Handler, seq<Value>) -> Outcome)
      returns (o: Outcome, out: seq<Output>, ghost outcomes: seq<Outcome>, ghost said: seq<seq<Output>>,
               ghost steps: seq<Step>)
      requires Valid()
      modifies this, base
      ensures Valid() && base.printing == old(base.printing)
      ensures 1 <= |outcomes| <= |Lines(text)| && |said| == |outcomes| && |steps| == |outcomes|
      ensures LinesRan(Lines(text), external, steps, outcomes, said)
      ensures forall i :: 0 <= i < |outcomes| - 1 ==> outcomes[i].Done?
      ensures o == outcomes[|outcomes| - 1]
      ensures |outcomes| < |Lines(text)| ==> !o.Done?
      ensures out == Replay(old(base.printing), ignoreUndefined, Lines(text),
                            Results(outcomes), said, |outcomes|)
    {
      var lines := Lines(text);
      out := [];
      outcomes := [];
      said := [];
      steps := [];
      o := Done(Undefined);
      var i := 0;
      while i < |lines|
        invariant i == |outcomes| && (i > 0 ==> o.Done?)
        invariant Valid() && base.printing == old(base.printing)
        invariant ScriptSoFar(lines, ignoreUndefined, old(base.printing), external, o, out, outcomes, said, steps)
      {
        o, out, outcomes, said, steps := RunLine(lines, i, ignoreUndefined, o, external, old(base.printing),
                                                 out, outcomes, said, steps);
        if !o.Done? {
          return;
        }
        i := i + 1;
      }
    }

    /** `runScript`'s loop body on line `i`, after the lines before it
        ran as the record `outcomes`, `said`, `steps` says: `ScriptLine`
        on the line, its block added to the output and the line added to
        the record. */
    method RunLine(lines: seq<string>, i: nat, ignoreUndefined: bool, o: Outcome,
                   external: (Handler, seq<Value>) -> Outcome, ghost printing: bool, out: seq<Output>,
                   ghost outcomes: seq<Outcome>, ghost said: seq<seq<Output>>, ghost steps: seq<Step>)
      returns (o': Outcome, out': seq<Output>,
               ghost outcomes': seq<Outcome>, ghost said': seq<seq<Output>>, ghost steps': seq<Step>)
      requires Valid() && base.printing == printing
      requires i == |outcomes| < |lines| && (i > 0 ==> o.Done?)
      requires ScriptSoFar(lines, ignoreUndefined, printing, external, o, out, outcomes, said, steps)
      modifies this, base
      ensures Valid() && base.printing == printing
      ensures |outcomes'| == i + 1
      ensures ScriptSoFar(lines, ignoreUndefined, printing, external, o', out', outcomes', said', steps')
    {
      var block, written, step, m;
      ghost var env: Env;
      ghost var mid: Session;
      o', block, written, step, m, env, mid := ScriptLine(lines[i], i == 0, ignoreUndefined, o, external);
      ScriptSoFarSnoc(lines, ignoreUndefined, printing, external, o, out, outcomes, said, steps,
                      o', block, written, step);
      out' := out + block;
      outcomes' := outcomes + [o'];
      said' := said + [written];
      steps' := steps + [step];
    }
  }

  /** The state of `runScript` after the lines `outcomes` records: they
      ran as `LinesRan` says, each but the last yielded a value, `o` is
      the last outcome and `out` is the replay of those lines. */
  ghost predicate ScriptSoFar(lines: seq<string>, ignoreUndefined: bool, printing: bool,
                              external: (Handler, seq<Value>) -> Outcome, o: Outcome, out: seq<Output>,
                              outcomes: seq<Outcome>, said: seq<seq<Output>>, steps: seq<Step>)
  {
    && LinesRan(lines, external, steps, outcomes, said)
    && (forall j :: 0 <= j < |outcomes| - 1 ==> outcomes[j].Done?)
    && (|outcomes| > 0 ==> o == outcomes[|outcomes| - 1])
    && out == Replay(printing, ignoreUndefined, lines, Results(outcomes), said, |outcomes|)
  }

  /** One more line run extends the state of `runScript` by its outcome,
      its block of output and its record. */
  lemma ScriptSoFarSnoc(lines: seq<string>, ignoreUndefined: bool, printing: bool,
                        external: (Handler, seq<Value>) -> Outcome, o: Outcome, out: seq<Output>,
                        outcomes: seq<Outcome>, said: seq<seq<Output>>, steps: seq<Step>,
                        r: Outcome, block: seq<Output>, written: seq<Output>, step: Step)
    requires |outcomes| < |lines| && (|outcomes| > 0 ==> o.Done?)
    requires ScriptSoFar(lines, ignoreUndefined, printing, external, o, out, outcomes, said, steps)
    requires LineEffect(step, external, r, written)
    requires Tokens(lines[|outcomes|]) == [] ==> step == Silent
    requires block == (if |outcomes| != 0 && Printed(ignoreUndefined, o.value) then [Shown(o.value)] else [])
                      + (if printing then [Echo(lines[|outcomes|])] else [])
                      + written
    ensures ScriptSoFar(lines, ignoreUndefined, printing, external, r, out + block,
                        outcomes + [r], said + [written], steps + [step])
  {
    ReplayStep(printing, ignoreUndefined, lines, outcomes, said, r, written, o);
    LinesRanSnoc(lines, external, steps, outcomes, said, step, r, written);
  }

  /** Line by line, `steps` says how each of the first lines of `lines`
      resolved, and each yielded `outcomes` and wrote `said` as its step
      says; a line without tokens resolved to nothing. */
  ghost predicate LinesRan(lines: seq<string>, external: (Handler, seq<Value>) -> Outcome,
                           steps: seq<Step>, outcomes: seq<Outcome>, said: seq<seq<Output>>)
  {
    && |steps| == |outcomes| == |said| <= |lines|
    && forall i :: 0 <= i < |steps| ==> LineRan(lines, external, steps, outcomes, said, i)
  }

  /** Line `i` resolved as `steps[i]` says and yielded and wrote what that
      step does. */
  ghost predicate LineRan(lines: seq<string>, external: (Handler, seq<Value>) -> Outcome,
                          steps: seq<Step>, outcomes: seq<Outcome>, said: seq<seq<Output>>, i: nat)
    requires i < |steps| == |outcomes| == |said| <= |lines|
  {
    && LineEffect(steps[i], external, outcomes[i], said[i])
    && (Tokens(lines[i]) == [] ==> steps[i] == Silent)
  }

  /** Running one more line extends the record by that line. */
  lemma LinesRanSnoc(lines: seq<string>, external: (Handler, seq<Value>) -> Outcome,
                     steps: seq<Step>, outcomes: seq<Outcome>, said: seq<seq<Output>>,
                     step: Step, r: Outcome, written: seq<Output>)
    requires LinesRan(lines, external, steps, outcomes, said) && |steps| < |lines|
    requires LineEffect(step, external, r, written)
    requires Tokens(lines[|steps|]) == [] ==> step == Silent
    ensures LinesRan(lines, external, steps + [step], outcomes + [r], said + [written])
  {
    var n := |steps|;
    forall i | 0 <= i < n + 1
      ensures LineRan(lines, external, steps + [step], outcomes + [r], said + [written], i)
    {
      if i < n {
        assert LineRan(lines, external, steps, outcomes, said, i);
        assert (steps + [step])[i] == steps[i] && (outcomes + [r])[i] == outcomes[i];
        assert (said + [written])[i] == said[i];
      }
    }
  }

  /** The value each outcome yields (undefined when it yields none). */
  function Results(outcomes: seq<Outcome>): (r: seq<Value>)
    ensures |r| == |outcomes|
    ensures forall i :: 0 <= i < |r| ==> r[i] == if outcomes[i].Done? then outcomes[i].value else Undefined
  {
    seq(|outcomes|, i requires 0 <= i < |outcomes| => if outcomes[i].Done? then outcomes[i].value else Undefined)
  }

  /** One more line extends the replay by that line's block. */
  lemma ReplayStep(printing: bool, ignoreUndefined: bool, lines: seq<string>,
                   outcomes: seq<Outcome>, said: seq<seq<Output>>, r: Outcome, written: seq<Output>, o: Outcome)
    requires |outcomes| < |lines| && |said| == |outcomes|
    requires |outcomes| > 0 ==> o == outcomes[|outcomes| - 1] && o.Done?
    ensures var i := |outcomes|;
      Replay(printing, ignoreUndefined, lines, Results(outcomes + [r]), said + [written], i + 1)
      == Replay(printing, ignoreUndefined, lines, Results(outcomes), said, i)
         + ((if !(i == 0) && Printed(ignoreUndefined, o.value) then [Shown(o.value)] else [])
            + (if printing then [Echo(lines[i])] else [])
            + written)
  {
    var i := |outcomes|;
    var results := Results(outcomes + [r]);
    assert results[..i] == Results(outcomes)[..i];
    assert (said + [written])[..i] == said[..i];
    ReplayPrefix(printing, ignoreUndefined, lines, Results(outcomes), said, results, said + [written], i);
  }
}
