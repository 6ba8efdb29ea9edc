/** Parameter types: the `Type` triple of lib/repl-base/type.js (a parser,
    a suggester and a renderer under a name), its built-ins, the `mode` and
    `command` types a session defines (lib/repl-base/repl-base.js) and the
    domain types of lib/repl-alliance.js. A type is one of a closed set of
    kinds; the state its closures read is passed explicitly as an `Env`. */
module Types {
  import opened Values
  import opened Utils
  import opened AllianceTypes

  datatype Type =
    | StringType | RestType | BooleanType | FileType
    | ModeType | CommandType
    | AddressType | UserAddressType | ContractAddressType | Uint256Type | ContractType

  /** What the types' closures read: the registered mode names, the action
      names visible from the current mode, the address books, the names of
      the known contracts, and the filesystem listing the `file` suggester
      consults. */
  datatype Env = Env(
    modeNames: seq<string>,
    actionNames: seq<string>,
    books: Books,
    contracts: seq<string>,
    listFiles: string -> seq<string>)

  function Name(t: Type): string
  {
    match t
    case StringType => "string"
    case RestType => "rest"
    case BooleanType => "boolean"
    case FileType => "file"
    case ModeType => "mode"
    case CommandType => "command"
    case AddressType => "address"
    case UserAddressType => "useraddress"
    case ContractAddressType => "contractaddress"
    case Uint256Type => "uint256"
    case ContractType => "contract"
  }

  /** `type.toString()`. */
  function ToString(t: Type): string
  {
    "<" + Name(t) + ">"
  }

  const TrueWords: seq<string> := ["true", "on", "1"]
  const FalseWords: seq<string> := ["false", "off", "0"]

  /** The `boolean` parser: a case-insensitive match against the true and
      false literals, an error naming the token otherwise. */
  function ParseBoolean(token: string): ParseResult
  {
    var input := Lower(token);
    if input in TrueWords then Ok(Bool(true))
    else if input in FalseWords then Ok(Bool(false))
    else Err("Value " + token + " is not a boolean.")
  }

  /** `type.parse(token)`. */
  function Parse(t: Type, env: Env, token: string): (r: ParseResult)
    ensures t == StringType || t == RestType || t == FileType ==> r == Ok(Str(token))
    ensures t == ModeType ==> (r.Ok? <==> token in env.modeNames)
    ensures t == CommandType ==> (r.Ok? <==> token in env.actionNames)
    ensures t == ContractType ==> (r.Ok? <==> token in env.contracts)
    ensures r.Ok? && (t == ModeType || t == CommandType) ==> r.value == Str(token)
    ensures t == AddressType
            ==> (r.Ok? <==> Utf16Length(AllianceTypes.Resolve([env.books.user, env.books.contract], token)) == 42)
    ensures t == Uint256Type ==> (r.Ok? <==> IsHexLiteral(token) || IsDecimalLiteral(token))
  {
    match t
    case StringType => Ok(Str(token))
    case RestType => Ok(Str(token))
    case FileType => Ok(Str(token))
    case BooleanType => ParseBoolean(token)
    case ModeType =>
      if token in env.modeNames then Ok(Str(token))
      else Err(token + " was not a mode, available modes are " + Join(env.modeNames, ", "))
    case CommandType =>
      if token in env.actionNames then Ok(Str(token))
      else Err(token + " was not a known action, available actions are " + Join(env.actionNames, ", "))
    case AddressType => ParseAddress(env.books, token)
    case UserAddressType => ParseUserAddress(env.books, token)
    case ContractAddressType => ParseContractAddress(env.books, token)
    case Uint256Type => ParseUint256(token)
    case ContractType =>
      if token in env.contracts then Ok(ContractRef(token))
      else Err(token + " was not a contract within this project, available contracts are "
               + Join(env.contracts, ", ") + ".")
  }

  /** `type.suggest(partial)`: the legal completions at this position. */
  function Suggest(t: Type, env: Env, partial: string): seq<string>
  {
    match t
    case StringType => []
    case RestType => []
    case BooleanType => TrueWords + FalseWords
    case FileType => env.listFiles(partial)
    case ModeType => env.modeNames
    case CommandType => env.actionNames
    case AddressType => Dicts.Keys(env.books.user) + Dicts.Keys(env.books.contract)
    case UserAddressType => Dicts.Keys(env.books.user)
    case ContractAddressType => Dicts.Keys(env.books.contract)
    case Uint256Type => []
    case ContractType => env.contracts
  }

  /** `type.render(value)`: the identity except for `address`. */
  function Render(t: Type, env: Env, v: Value): (r: Value)
    ensures t != AddressType ==> r == v
    ensures t == AddressType && v.Str? ==> r == Str(RenderAddress(env.books, v.s))
  {
    if t == AddressType && v.Str? then Str(RenderAddress(env.books, v.s)) else v
  }

  /** An address filed in the user book under a name that no other entry
      shares parses from that name, and renders back as "name (address)". */
  lemma RenderParsedName(env: Env, name: string, addr: string)
    requires name != "" && Lookup(env.books.user, name) == Some(addr)
    requires Utf16Length(addr) == 42
    requires forall j :: 0 <= j < |env.books.user| && env.books.user[j].0 != name
                         ==> !SameIgnoringCase(env.books.user[j].1, addr)
    ensures Parse(AddressType, env, name) == Ok(Str(addr))
    ensures Render(AddressType, env, Parse(AddressType, env, name).value) == Str(name + " (" + addr + ")")
  {
    var user := env.books.user;
    AddressResolution(env.books, name);
    var k := Dicts.IndexOf(user, name);
    assert k < |user| && user[k].1 == addr;
    assert AliasIndex(user, addr) <= k;
    assert AliasOf(user, addr) == Some(name);
  }

  /** `boolean` maps true/on/1 to true and false/off/0 to false, whatever
      their case, and rejects every other token with an error naming it. */
  lemma BooleanParse(env: Env, token: string)
    ensures Parse(BooleanType, env, token) == Ok(Bool(true)) <==> Lower(token) in TrueWords
    ensures Parse(BooleanType, env, token) == Ok(Bool(false)) <==> Lower(token) in FalseWords
    ensures Parse(BooleanType, env, token).Err?
            <==> Lower(token) !in TrueWords && Lower(token) !in FalseWords
    ensures Parse(BooleanType, env, token).Err?
            ==> Parse(BooleanType, env, token).error == "Value " + token + " is not a boolean."
  {
  }

  /** "On", "1" and "true" all parse to true; "yes" is an error naming it. */
  lemma BooleanExamples(env: Env)
    ensures Parse(BooleanType, env, "On") == Ok(Bool(true))
    ensures Parse(BooleanType, env, "1") == Ok(Bool(true))
    ensures Parse(BooleanType, env, "true") == Ok(Bool(true))
    ensures Parse(BooleanType, env, "yes") == Err("Value yes is not a boolean.")
  {
    assert Lower("On") == "on" by {
      assert Lower("On")[0] == 'o' && Lower("On")[1] == 'n';
    }
    LowerFixed("1");
    LowerFixed("true");
    LowerFixed("yes");
    assert "yes" !in TrueWords && "yes" !in FalseWords;
    YesMessage();
  }

  /** The message that rejects "yes", written out. */
  lemma YesMessage()
    ensures "Value " + "yes" + " is not a boolean." == "Value yes is not a boolean."
  {
  }

  /** A string without capital letters is its own lower case. */
  lemma LowerFixed(s: string)
    requires forall i :: 0 <= i < |s| ==> !('A' <= s[i] <= 'Z')
    ensures Lower(s) == s
  {
  }

  /** Every suggestion of `boolean`, `mode` and `command` is accepted by the
      same type's parser, whatever was typed so far. */
  lemma SuggestionsParse(t: Type, env: Env, partial: string, s: string)
    requires t in {BooleanType, ModeType, CommandType}
    requires s in Suggest(t, env, partial)
    ensures Parse(t, env, s).Ok?
  {
    if t == BooleanType {
      assert s in TrueWords || s in FalseWords;
      assert Lower(s) == s;
    }
  }
}
