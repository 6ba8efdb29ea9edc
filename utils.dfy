/** String helpers and the line tokenizer of lib/repl-base/utils.js.

    The tokenizer is a global regular expression: optional white space, then
    a double-quoted span, a single-quoted span, or a run of non-space
    characters. `Tokens` states what it matches as a recursive definition,
    `Split` is the left-to-right scanner over character positions, and the
    lemmas below characterise the tokens by the shape of the input. */
module Utils {

  /** JavaScript's `\s`: the ECMAScript white-space and line-terminator characters. */
  predicate IsSpace(c: char)
  {
    var n := c as int;
    (9 <= n <= 13) || n == 32 || n == 0xA0 || n == 0x1680 || (0x2000 <= n <= 0x200A)
    || n == 0x2028 || n == 0x2029 || n == 0x202F || n == 0x205F || n == 0x3000 || n == 0xFEFF
  }

  predicate IsQuote(c: char)
  {
    c == '"' || c == '\''
  }

  /** A token that splits as itself: non-empty, no white space, not opening a quote. */
  predicate Plain(t: string)
  {
    t != [] && !IsQuote(t[0]) && forall i :: 0 <= i < |t| ==> !IsSpace(t[i])
  }

  /** `parts.join(sep)`. */
  function Join(parts: seq<string>, sep: string): string
  {
    if parts == [] then ""
    else if |parts| == 1 then parts[0]
    else parts[0] + sep + Join(parts[1..], sep)
  }

  /** `lists.reduce((r, x) => [...r, ...x], [])`: the lists concatenated in order. */
  function Flatten<T>(lists: seq<seq<T>>): seq<T>
  {
    if lists == [] then [] else lists[0] + Flatten(lists[1..])
  }

  /** `s.startsWith(p)`. */
  predicate StartsWith(s: string, p: string)
  {
    |p| <= |s| && s[..|p|] == p
  }

  /** `c.toLowerCase()` on the ASCII letters. */
  function LowerChar(c: char): char
  {
    if 'A' <= c <= 'Z' then (c as int + 32) as char else c
  }

  /** `s.toLowerCase()`, folding ASCII letters only. */
  function Lower(s: string): (r: string)
    ensures |r| == |s|
    ensures forall i :: 0 <= i < |s| ==> r[i] == LowerChar(s[i])
  {
    seq(|s|, i requires 0 <= i < |s| => LowerChar(s[i]))
  }

  /** `s.length`: JavaScript counts UTF-16 code units, two for a character
      outside the Basic Multilingual Plane. */
  function Utf16Length(s: string): (n: nat)
    ensures |s| <= n <= 2 * |s|
  {
    if s == [] then 0 else (if s[0] as int > 0xFFFF then 2 else 1) + Utf16Length(s[1..])
  }

  /** Length of a quoted span's body once its opening quote `q` is consumed:
      the span ends at the first `q` that is not the second half of a
      backslash-`q` pair, or at the end of the input. */
  function BodyLength(t: string, q: char): (n: nat)
    ensures n <= |t|
    ensures n < |t| ==> t[n] == q
    decreases |t|
  {
    if t == [] || t[0] == q then 0
    else if t[0] == '\\' && |t| >= 2 && t[1] == q then 2 + BodyLength(t[2..], q)
    else 1 + BodyLength(t[1..], q)
  }

  /** Length of the maximal run of non-space characters at the start of `s`. */
  function WordLength(s: string): (n: nat)
    ensures n <= |s|
    ensures forall i :: 0 <= i < n ==> !IsSpace(s[i])
    ensures n < |s| ==> IsSpace(s[n])
  {
    if s == [] || IsSpace(s[0]) then 0 else 1 + WordLength(s[1..])
  }

  /** The tokens the regular expression of utils.js:5 yields, in order. */
  function Tokens(s: string): seq<string>
    decreases |s|
  {
    if s == [] then []
    else if IsSpace(s[0]) then Tokens(s[1..])
    else if IsQuote(s[0]) then
      var n := BodyLength(s[1..], s[0]);
      [s[1..1 + n]] + Tokens(s[if 1 + n < |s| then 2 + n else |s|..])
    else
      var n := WordLength(s);
      [s[..n]] + Tokens(s[n..])
  }

  /** One step of `Tokens` over a white-space character at `line[i]`. */
  lemma SpaceStep(line: string, i: nat)
    requires i < |line| && IsSpace(line[i])
    ensures Tokens(line[i..]) == Tokens(line[i + 1..])
  {
    assert line[i..][1..] == line[i + 1..];
  }

  /** One step of `Tokens` over a quoted span starting at `line[i]`. */
  lemma QuotedStep(line: string, i: nat, j: nat)
    requires i < |line| && IsQuote(line[i])
    requires j == i + 1 + BodyLength(line[i + 1..], line[i])
    ensures Tokens(line[i..]) == [line[i + 1..j]] + Tokens(line[if j < |line| then j + 1 else j..])
  {
    var s := line[i..];
    assert s[1..] == line[i + 1..];
    var n := j - (i + 1);
    assert s[1..1 + n] == line[i + 1..j];
    if j < |line| {
      assert s[2 + n..] == line[j + 1..];
    } else {
      assert s[|s|..] == line[j..];
    }
  }

  /** One step of `Tokens` over an unquoted word starting at `line[i]`. */
  lemma WordStep(line: string, i: nat, j: nat)
    requires i < |line| && !IsSpace(line[i]) && !IsQuote(line[i])
    requires j == i + WordLength(line[i..])
    ensures Tokens(line[i..]) == [line[i..j]] + Tokens(line[j..])
  {
    var s := line[i..];
    assert s[..j - i] == line[i..j];
    assert s[j - i..] == line[j..];
  }

  /** Scans a quoted span whose opening quote is `line[i]`; returns the
      position of its closing quote, or the end of the line. */
  method ScanQuoted(line: string, i: nat) returns (j: nat)
    requires i < |line| && IsQuote(line[i])
    ensures j == i + 1 + BodyLength(line[i + 1..], line[i])
  {
    var q := line[i];
    ghost var n := BodyLength(line[i + 1..], q);
    j := i + 1;
    while j < |line| && line[j] != q
      invariant i + 1 <= j <= |line|
      invariant n == (j - (i + 1)) + BodyLength(line[j..], q)
    {
      var next := if line[j] == '\\' && j + 1 < |line| && line[j + 1] == q then j + 2 else j + 1;
      BodyLengthStep(line, j, next, q);
      j := next;
    }
  }

  /** One step of the quoted-span scan at `line[j]`, which is not the quote:
      an escaped quote is skipped whole, any other character alone. */
  lemma BodyLengthStep(line: string, j: nat, next: nat, q: char)
    requires j < |line| && line[j] != q
    requires next == if line[j] == '\\' && j + 1 < |line| && line[j + 1] == q then j + 2 else j + 1
    ensures next <= |line|
    ensures BodyLength(line[j..], q) == (next - j) + BodyLength(line[next..], q)
  {
    assert line[j..][1..] == line[j + 1..];
    if next == j + 2 {
      assert line[j..][2..] == line[j + 2..];
    }
  }

  /** Scans the run of non-space characters that starts at `line[i]`. */
  method ScanWord(line: string, i: nat) returns (j: nat)
    requires i < |line| && !IsSpace(line[i])
    ensures j == i + WordLength(line[i..])
  {
    j := i + 1;
    assert line[i..][1..] == line[i + 1..];
    while j < |line| && !IsSpace(line[j])
      invariant i + 1 <= j <= |line|
      invariant WordLength(line[i..]) == (j - i) + WordLength(line[j..])
    {
      assert line[j..][1..] == line[j + 1..];
      j := j + 1;
    }
  }

  /** `split(str)`: scans the line once, left to right, pushing each token. */
  method Split(line: string) returns (tokens: seq<string>)
    ensures tokens == Tokens(line)
  {
    tokens := [];
    var i := 0;
    while i < |line|
      invariant 0 <= i <= |line|
      invariant tokens + Tokens(line[i..]) == Tokens(line)
    {
      if IsSpace(line[i]) {
        SpaceStep(line, i);
        i := i + 1;
      } else if IsQuote(line[i]) {
        var j := ScanQuoted(line, i);
        var next := if j < |line| then j + 1 else j;
        QuotedStep(line, i, j);
        assert tokens + [line[i + 1..j]] + Tokens(line[next..]) == Tokens(line);
        tokens := tokens + [line[i + 1..j]];
        i := next;
      } else {
        var j := ScanWord(line, i);
        WordStep(line, i, j);
        assert tokens + [line[i..j]] + Tokens(line[j..]) == Tokens(line);
        tokens := tokens + [line[i..j]];
        i := j;
      }
    }
  }

  /** A line yields no token exactly when it is empty or all white space. */
  lemma {:induction false} NoTokensIffBlank(s: string)
    ensures Tokens(s) == [] <==> forall i :: 0 <= i < |s| ==> IsSpace(s[i])
  {
    if s != [] && IsSpace(s[0]) {
      NoTokensIffBlank(s[1..]);
      assert forall i :: 1 <= i < |s| ==> s[i] == s[1..][i - 1];
    }
  }

  /** An unquoted token is a maximal run of non-space characters: a word that
      does not open a quote, followed by white space or the end of the line,
      is one token, whatever quote characters it holds after its first. */
  lemma WordToken(w: string, rest: string)
    requires Plain(w)
    requires rest == [] || IsSpace(rest[0])
    ensures Tokens(w + rest) == [w] + Tokens(rest)
  {
    var s := w + rest;
    var n := WordLength(s);
    assert n == |w| by {
      assert forall i :: 0 <= i < |w| ==> !IsSpace(s[i]);
      assert |w| < |s| ==> IsSpace(s[|w|]);
    }
    assert s[..n] == w && s[n..] == rest;
  }

  /** Leading white space never reaches a token. */
  lemma {:induction false} SkipSpace(sp: string, s: string)
    requires forall i :: 0 <= i < |sp| ==> IsSpace(sp[i])
    ensures Tokens(sp + s) == Tokens(s)
  {
    if sp != [] {
      var t := sp + s;
      assert t[0] == sp[0];
      assert t[1..] == sp[1..] + s;
      SkipSpace(sp[1..], s);
      assert Tokens(t) == Tokens(t[1..]);
    } else {
      assert sp + s == s;
    }
  }

  /** The body of a quoted span: every quote `q` in it is preceded by a backslash. */
  predicate EscapedBody(body: string, q: char)
  {
    forall k :: 0 <= k < |body| && body[k] == q ==> k > 0 && body[k - 1] == '\\'
  }

  /** The quoted span's scan runs over the whole of such a body, stopping at
      the quote that follows it unless a backslash ends the body. */
  lemma {:induction false} BodyLengthOfEscaped(body: string, q: char, tail: string)
    requires IsQuote(q) && EscapedBody(body, q)
    requires tail == [] || (tail[0] == q && (body == [] || body[|body| - 1] != '\\'))
    ensures BodyLength(body + tail, q) == |body|
  {
    var t := body + tail;
    if body != [] {
      if body[0] == '\\' && |t| >= 2 && t[1] == q {
        assert |body| >= 2;
        assert t[2..] == body[2..] + tail;
        assert EscapedBody(body[2..], q) by {
          forall k | 0 <= k < |body[2..]| && body[2..][k] == q
            ensures k > 0 && body[2..][k - 1] == '\\'
          {
            assert body[k + 2] == q;
          }
        }
        BodyLengthOfEscaped(body[2..], q, tail);
      } else {
        assert t[1..] == body[1..] + tail;
        assert EscapedBody(body[1..], q) by {
          forall k | 0 <= k < |body[1..]| && body[1..][k] == q
            ensures k > 0 && body[1..][k - 1] == '\\'
          {
            assert body[k + 1] == q;
          }
        }
        BodyLengthOfEscaped(body[1..], q, tail);
      }
    }
  }

  /** A quoted span is one token with its quotes stripped; an escaped quote
      inside it does not close it and keeps its backslash; the span runs to
      the first quote not preceded by a backslash. */
  lemma QuotedToken(q: char, body: string, rest: string)
    requires IsQuote(q) && EscapedBody(body, q)
    requires body == [] || body[|body| - 1] != '\\'
    ensures Tokens([q] + body + [q] + rest) == [body] + Tokens(rest)
  {
    var s := [q] + body + [q] + rest;
    assert s[1..] == body + ([q] + rest);
    BodyLengthOfEscaped(body, q, [q] + rest);
    assert s[1..1 + |body|] == body;
    assert s[2 + |body|..] == rest;
  }

  /** An unterminated quote is tolerated: the rest of the line, spaces
      included, is one token. */
  lemma UnterminatedQuote(q: char, body: string)
    requires IsQuote(q) && EscapedBody(body, q)
    ensures Tokens([q] + body) == [body]
  {
    var s := [q] + body;
    assert s[1..] == body + [];
    BodyLengthOfEscaped(body, q, []);
    QuotedStep(s, 0, |s|);
    assert s[0..] == s && s[1..|s|] == body;
  }

  /** `s[i]` is a quote that ends the line or is followed by the same quote:
      where an empty token can come from. */
  predicate EmptySource(s: string, i: int)
  {
    0 <= i < |s| && IsQuote(s[i]) && (i + 1 == |s| || s[i + 1] == s[i])
  }

  lemma ShiftSource(s: string, k: nat, i: int)
    requires k <= |s| && EmptySource(s[k..], i)
    ensures EmptySource(s, k + i)
  {
    assert s[k..][i] == s[k + i];
    if i + 1 < |s[k..]| {
      assert s[k..][i + 1] == s[k + i + 1];
    }
  }

  /** An empty token comes only from two adjacent equal quotes or from a
      quote that ends the line. */
  lemma {:induction false} EmptyTokenOrigin(s: string)
    requires "" in Tokens(s)
    ensures exists i :: EmptySource(s, i)
  {
    assert s != [];
    if IsSpace(s[0]) {
      EmptyTokenOrigin(s[1..]);
      var i :| EmptySource(s[1..], i);
      ShiftSource(s, 1, i);
    } else if IsQuote(s[0]) {
      var n := BodyLength(s[1..], s[0]);
      var m := if 1 + n < |s| then 2 + n else |s|;
      if n == 0 {
        assert EmptySource(s, 0);
      } else {
        assert s[1..1 + n] != "";
        EmptyTokenOrigin(s[m..]);
        var i :| EmptySource(s[m..], i);
        ShiftSource(s, m, i);
      }
    } else {
      var n := WordLength(s);
      assert s[..n] != "";
      EmptyTokenOrigin(s[n..]);
      var i :| EmptySource(s[n..], i);
      ShiftSource(s, n, i);
    }
  }

  /** Plain tokens joined by single spaces split back into the same list. */
  lemma {:induction false} JoinSplitRoundTrip(toks: seq<string>)
    requires forall i :: 0 <= i < |toks| ==> Plain(toks[i])
    ensures Tokens(Join(toks, " ")) == toks
  {
    if |toks| == 1 {
      WordToken(toks[0], []);
      assert toks[0] + [] == toks[0];
    } else if |toks| > 1 {
      var tail := Join(toks[1..], " ");
      assert Join(toks, " ") == toks[0] + (" " + tail);
      WordToken(toks[0], " " + tail);
      SkipSpace(" ", tail);
      JoinSplitRoundTrip(toks[1..]);
    }
  }
}
