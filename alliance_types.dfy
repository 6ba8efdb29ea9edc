/** The domain parameter types of lib/repl-alliance.js: address-book lookups,
    `reverseLookup`, the address renderer and the `uint256` parser. Their
    closures read the session's two address books, passed here as `Books`. */
module AllianceTypes {
  import opened Values
  import opened Dicts
  import opened Utils

  /** The user address book and the contract address book (name to address). */
  datatype Books = Books(user: Dict<string>, contract: Dict<string>)

  /** `d[k]` as the left operand of `||`: missing when absent or empty,
      since an empty string is falsy. */
  function Lookup(d: Dict<string>, k: string): (r: Option<string>)
    ensures r.Some? <==> Get(d, k).Some? && Get(d, k).value != ""
    ensures r.Some? ==> r == Get(d, k)
  {
    match Get(d, k)
    case Some(v) => if v != "" then Some(v) else None
    case None => None
  }

  /** `books[0][name] || books[1][name] || ... || name`. */
  function Resolve(books: seq<Dict<string>>, name: string): string
  {
    if books == [] then name
    else match Lookup(books[0], name)
      case Some(v) => v
      case None => Resolve(books[1..], name)
  }

  /** Index of the first book holding a non-empty entry for `name`, or `|books|`. */
  function FirstBook(books: seq<Dict<string>>, name: string): (i: nat)
    ensures i <= |books|
    ensures i < |books| ==> Lookup(books[i], name).Some?
    ensures forall j :: 0 <= j < i ==> Lookup(books[j], name).None?
  {
    if books == [] then 0
    else if Lookup(books[0], name).Some? then 0
    else 1 + FirstBook(books[1..], name)
  }

  /** The `||` chain consults the books in order: the first book holding a
      non-empty entry for the name decides, and the raw name is the fallback. */
  lemma {:induction false} ResolveFirstBook(books: seq<Dict<string>>, name: string)
    ensures var i := FirstBook(books, name);
      Resolve(books, name) == if i < |books| then Lookup(books[i], name).value else name
  {
    if books != [] && Lookup(books[0], name).None? {
      ResolveFirstBook(books[1..], name);
    }
  }

  /** The parsers of `address`, `useraddress` and `contractaddress`
      (lines 125-130, 136-149): resolve through the books, then demand a
      42-unit string. `what` is the noun of the error message. */
  function ParseAddressIn(books: seq<Dict<string>>, name: string, what: string): (r: ParseResult)
    ensures r.Ok? <==> Utf16Length(Resolve(books, name)) == 42
    ensures r.Ok? ==> r.value == Str(Resolve(books, name))
    ensures r.Err? ==> r.error == name + " was not a known " + what + "."
  {
    var result := Resolve(books, name);
    if Utf16Length(result) != 42 then Err(name + " was not a known " + what + ".")
    else Ok(Str(result))
  }

  function ParseAddress(b: Books, name: string): ParseResult
  {
    ParseAddressIn([b.user, b.contract], name, "address")
  }

  function ParseUserAddress(b: Books, name: string): ParseResult
  {
    ParseAddressIn([b.user], name, "user")
  }

  function ParseContractAddress(b: Books, name: string): ParseResult
  {
    ParseAddressIn([b.contract], name, "contract")
  }

  /** `address` resolves through the user book, then the contract book, then
      the raw token; `useraddress` and `contractaddress` each consult only
      their own book. (Acceptance then demands 42 UTF-16 units, as the
      contract of `ParseAddressIn` states.) */
  lemma AddressResolution(b: Books, name: string)
    ensures Resolve([b.user, b.contract], name)
            == if Lookup(b.user, name).Some? then Lookup(b.user, name).value
               else if Lookup(b.contract, name).Some? then Lookup(b.contract, name).value
               else name
    ensures Resolve([b.user], name)
            == if Lookup(b.user, name).Some? then Lookup(b.user, name).value else name
    ensures Resolve([b.contract], name)
            == if Lookup(b.contract, name).Some? then Lookup(b.contract, name).value else name
  {
    ResolveFirstBook([b.user, b.contract], name);
    ResolveFirstBook([b.user], name);
    ResolveFirstBook([b.contract], name);
  }

  /** Case-insensitive string equality, as `a.toLowerCase() === b.toLowerCase()`. */
  predicate SameIgnoringCase(a: string, b: string)
  {
    Lower(a) == Lower(b)
  }

  /** Index of the first entry whose value equals `value` ignoring case, or `|obj|`. */
  function AliasIndex(obj: Dict<string>, value: string): (i: nat)
    ensures i <= |obj|
    ensures i < |obj| ==> SameIgnoringCase(obj[i].1, value)
    ensures forall j :: 0 <= j < i ==> !SameIgnoringCase(obj[j].1, value)
  {
    if obj == [] then 0
    else if SameIgnoringCase(obj[0].1, value) then 0
    else 1 + AliasIndex(obj[1..], value)
  }

  /** What `reverseLookup(value, obj)` returns: the first key, in key order,
      whose value equals `value` ignoring case; None stands for `null`. */
  function AliasOf(obj: Dict<string>, value: string): (r: Option<string>)
    ensures r.None? <==> forall i :: 0 <= i < |obj| ==> !SameIgnoringCase(obj[i].1, value)
    ensures r.Some? ==> exists i :: 0 <= i < |obj| && obj[i].0 == r.value
                                    && SameIgnoringCase(obj[i].1, value)
                                    && forall j :: 0 <= j < i ==> !SameIgnoringCase(obj[j].1, value)
  {
    var i := AliasIndex(obj, value);
    if i < |obj| then Some(obj[i].0) else None
  }

  /** `reverseLookup(value, obj)`: walks the keys in order and returns at the first match. */
  method ReverseLookup(value: string, obj: Dict<string>) returns (r: Option<string>)
    ensures r == AliasOf(obj, value)
  {
    var lowered := Lower(value);
    var i := 0;
    while i < |obj|
      invariant 0 <= i <= |obj|
      invariant forall j :: 0 <= j < i ==> !SameIgnoringCase(obj[j].1, value)
    {
      if Lower(obj[i].1) == lowered {
        return Some(obj[i].0);
      }
      i := i + 1;
    }
    return None;
  }

  /** An alias as the left operand of `||` or a condition: a key that is
      missing or empty is falsy. */
  predicate Truthy(o: Option<string>)
  {
    o.Some? && o.value != ""
  }

  /** The address renderer (lines 131-135): "alias (raw)" with the alias
      taken from the user book first, then the contract book; the raw value
      when neither book knows it. */
  function RenderAddress(b: Books, out: string): (r: string)
    ensures Truthy(AliasOf(b.user, out)) ==> r == AliasOf(b.user, out).value + " (" + out + ")"
    ensures !Truthy(AliasOf(b.user, out)) && Truthy(AliasOf(b.contract, out))
            ==> r == AliasOf(b.contract, out).value + " (" + out + ")"
    ensures !Truthy(AliasOf(b.user, out)) && !Truthy(AliasOf(b.contract, out)) ==> r == out
  {
    var u := AliasOf(b.user, out);
    var reverse := if Truthy(u) then u else AliasOf(b.contract, out);
    if Truthy(reverse) then reverse.value + " (" + out + ")" else out
  }

  predicate IsDigit(c: char)
  {
    '0' <= c <= '9'
  }

  predicate IsHexDigit(c: char)
  {
    IsDigit(c) || 'a' <= c <= 'f' || 'A' <= c <= 'F'
  }

  predicate AllDigits(s: string)
  {
    forall i :: 0 <= i < |s| ==> IsDigit(s[i])
  }

  /** The metric suffixes of line 154; the one at index i stands for 1000^(i+1). */
  const Suffixes: string := "kMGTPEZY"

  /** `"kMGTPEZY".indexOf(c)`, or 8 when `c` is not a suffix. */
  function SuffixIndex(c: char): (i: nat)
    ensures i <= 8
    ensures i < 8 ==> Suffixes[i] == c
    ensures i == 8 ==> c !in Suffixes
  {
    if c == 'k' then 0 else if c == 'M' then 1 else if c == 'G' then 2 else if c == 'T' then 3
    else if c == 'P' then 4 else if c == 'E' then 5 else if c == 'Z' then 6 else if c == 'Y' then 7
    else 8
  }

  function Zeros(n: nat): (z: string)
    ensures |z| == n && AllDigits(z)
  {
    seq(n, _ => '0')
  }

  /** Lines 152-158: a token without a `0x` prefix whose last character is
      the suffix at index i loses it and gains `"000".repeat(i + 1)`. For the
      empty token, `"".substr(-1)` is `""`, which `indexOf` finds at 0. */
  function ExpandSuffix(num: string): string
  {
    if StartsWith(num, "0x") then num
    else if num == "" then Zeros(3)
    else
      var i := SuffixIndex(num[|num| - 1]);
      if i < 8 then num[..|num| - 1] + Zeros(3 * (i + 1)) else num
  }

  /** The first alternative of the regular expression at line 7,
      `^0x[0-9a-fA-F]{1,64}` without an end anchor: `0x` and a hex digit
      at the start of the token. */
  predicate MatchesHexAlternative(s: string)
  {
    |s| >= 3 && s[0] == '0' && s[1] == 'x' && IsHexDigit(s[2])
  }

  /** The second alternative, `1?[0-9]{1,77}[kMGTPEZY]?`, anchored nowhere:
      it matches exactly when some character of the token is a digit. */
  predicate MatchesDecimalAlternative(s: string)
  {
    exists i :: 0 <= i < |s| && IsDigit(s[i])
  }

  /** `uint256regex.test(num)` as written. */
  predicate Uint256RegexAsWritten(s: string)
  {
    MatchesHexAlternative(s) || MatchesDecimalAlternative(s)
  }

  /** Only the first alternative is anchored, so the test accepts exactly
      the tokens holding a decimal digit: the hex alternative adds nothing. */
  lemma Uint256RegexAcceptsAnyDigit(s: string)
    ensures Uint256RegexAsWritten(s) <==> exists i :: 0 <= i < |s| && IsDigit(s[i])
  {
    if MatchesHexAlternative(s) {
      assert IsDigit(s[0]);
    }
  }

  /** The `uint256` parser exactly as written (lines 150-162). */
  function ParseUint256AsWritten(num: string): ParseResult
  {
    if Uint256RegexAsWritten(num) then Ok(Str(ExpandSuffix(num)))
    else Err(num + " was not a valid uint256.")
  }

  /** A token the as-written test lets through although it is no number at
      all, and which the suffix rule then rewrites. */
  lemma Uint256AsWrittenAcceptsNonNumber()
    ensures ParseUint256AsWritten("x9k") == Ok(Str("x9000"))
    ensures ParseUint256("x9k").Err?
  {
    assert IsDigit("x9k"[1]);
    assert !StartsWith("x9k", "0x");
    assert SuffixIndex('k') == 0;
    assert "x9k"[..2] + Zeros(3) == "x9000";
    assert !IsHexLiteral("x9k");
    assert DecimalDigits("x9k") == "x9";
    assert !IsDigit("x9"[0]);
  }

  /** As written, `uint256` rejects exactly the tokens without a decimal
      digit, with an error naming the token, and hands on every other
      token with its suffix expanded. */
  lemma Uint256AsWrittenAcceptance(num: string)
    ensures ParseUint256AsWritten(num).Ok? <==> exists i :: 0 <= i < |num| && IsDigit(num[i])
    ensures ParseUint256AsWritten(num).Ok? ==> ParseUint256AsWritten(num).value == Str(ExpandSuffix(num))
    ensures ParseUint256AsWritten(num).Err? ==> ParseUint256AsWritten(num).error == num + " was not a valid uint256."
  {
    Uint256RegexAcceptsAnyDigit(num);
  }

  /** `0x` followed by 1 to 64 hex digits, and nothing else. */
  predicate IsHexLiteral(s: string)
  {
    3 <= |s| <= 66 && s[0] == '0' && s[1] == 'x' && forall i :: 2 <= i < |s| ==> IsHexDigit(s[i])
  }

  /** The digits of a decimal literal, without its optional suffix. */
  function DecimalDigits(s: string): string
  {
    if s != [] && SuffixIndex(s[|s| - 1]) < 8 then s[..|s| - 1] else s
  }

  /** `1?[0-9]{1,77}[kMGTPEZY]?` matching the whole token. */
  predicate IsDecimalLiteral(s: string)
  {
    var d := DecimalDigits(s);
    AllDigits(d) && (1 <= |d| <= 77 || (|d| == 78 && d[0] == '1'))
  }

  /** The `uint256` parser with both alternatives anchored at both ends, as
      the pattern's bounds (64 hex digits, 78 decimal digits) intend. */
  function ParseUint256(num: string): ParseResult
  {
    if IsHexLiteral(num) || IsDecimalLiteral(num) then Ok(Str(ExpandSuffix(num)))
    else Err(num + " was not a valid uint256.")
  }

  /** What the anchored parser hands on is always a numeral: a hex literal
      kept as it is, or a string of decimal digits with the suffix expanded. */
  lemma Uint256YieldsNumeral(num: string)
    requires ParseUint256(num).Ok?
    ensures var v := ParseUint256(num).value.s;
      (IsHexLiteral(v) && v == num) || (AllDigits(v) && |v| > 0)
  {
    if !IsHexLiteral(num) {
      var d := DecimalDigits(num);
      assert forall k :: 0 <= k < |d| ==> num[k] == d[k];
      if |d| >= 2 {
        assert num[1] == d[1];
      } else if |num| >= 2 {
        assert SuffixIndex(num[1]) < 8;
      }
      assert !StartsWith(num, "0x");
      if SuffixIndex(num[|num| - 1]) < 8 {
        assert num[..|num| - 1] == d;
      }
    }
  }

  /** `DecimalValue(s)`: the number a string of digits denotes. */
  function DecimalValue(s: string): nat
    requires AllDigits(s)
  {
    if s == [] then 0 else DecimalValue(s[..|s| - 1]) * 10 + (s[|s| - 1] as int - '0' as int)
  }

  function Pow10(n: nat): nat
  {
    if n == 0 then 1 else 10 * Pow10(n - 1)
  }

  lemma {:induction false} AppendZeros(s: string, n: nat)
    requires AllDigits(s)
    ensures AllDigits(s + Zeros(n)) && DecimalValue(s + Zeros(n)) == DecimalValue(s) * Pow10(n)
  {
    if n > 0 {
      var t := s + Zeros(n);
      assert t[..|t| - 1] == s + Zeros(n - 1);
      AppendZeros(s, n - 1);
    } else {
      assert s + Zeros(0) == s;
    }
  }

  /** The suffix at index i scales the number by 1000^(i+1): `5k` is 5000. */
  lemma SuffixScales(d: string, i: nat)
    requires AllDigits(d) && d != [] && i < 8
    ensures AllDigits(ExpandSuffix(d + [Suffixes[i]]))
    ensures DecimalValue(ExpandSuffix(d + [Suffixes[i]])) == DecimalValue(d) * Pow10(3 * (i + 1))
  {
    var s := d + [Suffixes[i]];
    if |d| >= 2 {
      assert s[1] == d[1];
    } else {
      assert s[1] == Suffixes[i];
    }
    assert !StartsWith(s, "0x");
    assert SuffixIndex(s[|s| - 1]) == i;
    assert s[..|s| - 1] == d;
    AppendZeros(d, 3 * (i + 1));
  }

  /** The anchored parser accepts only tokens the as-written one accepts,
      and hands on the same value for them. */
  lemma Uint256Narrows(num: string)
    requires ParseUint256(num).Ok?
    ensures ParseUint256AsWritten(num) == ParseUint256(num)
  {
    if IsHexLiteral(num) {
      assert IsDigit(num[0]);
    } else {
      var d := DecimalDigits(num);
      assert d[0] == num[0] && IsDigit(d[0]);
    }
  }
}
