/** The JavaScript string operations the chat server and its browser client
    rely on, over `string` = `seq<char>` (one `char` per Unicode scalar value). */
module Text {

  /** `s` starts with `p` (`String.prototype.startsWith`). */
  predicate StartsWith(s: string, p: string) {
    |p| <= |s| && s[..|p|] == p
  }

  /** `s` ends with `p` (`String.prototype.endsWith`). */
  predicate EndsWith(s: string, p: string) {
    |p| <= |s| && s[|s| - |p|..] == p
  }

  /** `k` occurs in `s` starting at index `i`. */
  predicate OccursAt(s: string, k: string, i: int) {
    0 <= i && i + |k| <= |s| && s[i..i + |k|] == k
  }

  /** `String.prototype.includes`: does `k` occur anywhere in `s`? */
  function Contains(s: string, k: string): (r: bool)
    ensures r <==> exists i :: OccursAt(s, k, i)
    decreases |s|
  {
    if |k| > |s| then
      assert forall i :: !OccursAt(s, k, i);
      false
    else if s[..|k|] == k then
      assert OccursAt(s, k, 0);
      true
    else
      var r := Contains(s[1..], k);
      assert forall i :: OccursAt(s[1..], k, i) <==> OccursAt(s, k, i + 1) by {
        forall i ensures OccursAt(s[1..], k, i) <==> OccursAt(s, k, i + 1) {
          if 0 <= i && i + |k| <= |s| - 1 {
            assert s[1..][i..i + |k|] == s[i + 1..i + 1 + |k|];
          }
        }
      }
      assert forall i :: OccursAt(s, k, i) ==> i >= 1 && OccursAt(s[1..], k, i - 1);
      r
  }

  /** `String.prototype.toLowerCase` on one character: ASCII letters and the
      Latin-1 capitals U+00C0..U+00DE (except the multiplication sign U+00D7)
      move up by 32. */
  function LowerChar(c: char): (r: char)
    ensures !IsUpper(r)
    ensures !IsUpper(c) ==> r == c
    ensures IsUpper(c) ==> r as int == c as int + 32
  {
    if 'A' <= c <= 'Z' then (c as int + 32) as char
    else if '\U{C0}' <= c <= '\U{DE}' && c != '\U{D7}' then (c as int + 32) as char
    else c
  }

  /** The capitals `toLowerCase` changes within ASCII and Latin-1. */
  predicate IsUpper(c: char) {
    ('A' <= c <= 'Z') || ('\U{C0}' <= c <= '\U{DE}' && c != '\U{D7}')
  }

  /** `String.prototype.toLowerCase`, character by character: no capital is
      left, every other character is kept, and each capital becomes the
      letter 32 code points above it. */
  function Lower(s: string): (r: string)
    ensures |r| == |s|
    ensures forall i :: 0 <= i < |r| ==> !IsUpper(r[i])
    ensures forall i :: 0 <= i < |s| && !IsUpper(s[i]) ==> r[i] == s[i]
    ensures forall i :: 0 <= i < |s| && IsUpper(s[i]) ==> r[i] as int == s[i] as int + 32
  {
    seq(|s|, i requires 0 <= i < |s| => LowerChar(s[i]))
  }

  /** The JavaScript regular-expression class `\s`, which is also exactly the
      set of characters `String.prototype.trim` removes (WhiteSpace and
      LineTerminator of ECMA-262). */
  predicate IsWhitespace(c: char) {
    c == '\t' || c == '\n' || c == '\U{0B}' || c == '\U{0C}' || c == '\r' || c == ' '
    || c == '\U{A0}' || c == '\U{1680}' || ('\U{2000}' <= c <= '\U{200A}')
    || c == '\U{2028}' || c == '\U{2029}' || c == '\U{202F}' || c == '\U{205F}'
    || c == '\U{3000}' || c == '\U{FEFF}'
  }

  /** `String.prototype.trimStart`. */
  function TrimStart(s: string): string
  {
    if |s| > 0 && IsWhitespace(s[0]) then TrimStart(s[1..]) else s
  }

  /** `trimStart` drops the leading whitespace and nothing else. */
  lemma {:induction false} TrimStartShape(s: string)
    ensures var r := TrimStart(s);
      && |r| <= |s| && r == s[|s| - |r|..]
      && (forall i :: 0 <= i < |s| - |r| ==> IsWhitespace(s[i]))
      && (|r| == 0 || !IsWhitespace(r[0]))
    decreases |s|
  {
    if |s| > 0 && IsWhitespace(s[0]) {
      TrimStartShape(s[1..]);
      var r := TrimStart(s[1..]);
      assert s[1..][|s| - 1 - |r|..] == s[|s| - |r|..];
      assert forall i :: 1 <= i < |s| - |r| ==> s[i] == s[1..][i - 1];
    }
  }

  /** `String.prototype.trimEnd`. */
  function TrimEnd(s: string): string
  {
    if |s| > 0 && IsWhitespace(s[|s| - 1]) then TrimEnd(s[..|s| - 1]) else s
  }

  /** `trimEnd` drops the trailing whitespace and nothing else. */
  lemma {:induction false} TrimEndShape(s: string)
    ensures var r := TrimEnd(s);
      && |r| <= |s| && r == s[..|r|]
      && (forall i :: |r| <= i < |s| ==> IsWhitespace(s[i]))
      && (|r| == 0 || !IsWhitespace(r[|r| - 1]))
    decreases |s|
  {
    if |s| > 0 && IsWhitespace(s[|s| - 1]) {
      TrimEndShape(s[..|s| - 1]);
      var r := TrimEnd(s[..|s| - 1]);
      assert s[..|s| - 1][..|r|] == s[..|r|];
      assert forall i :: |r| <= i < |s| - 1 ==> s[i] == s[..|s| - 1][i];
    }
  }

  /** `r` is the slice of `s` starting at `a`, and everything in `s` around
      it is whitespace. */
  predicate TrimmedAt(s: string, r: string, a: int) {
    && 0 <= a <= |s| - |r|
    && r == s[a..a + |r|]
    && (forall i :: 0 <= i < a ==> IsWhitespace(s[i]))
    && (forall i :: a + |r| <= i < |s| ==> IsWhitespace(s[i]))
  }

  /** `String.prototype.trim`: `trimStart` then `trimEnd`. */
  function Trim(s: string): string
  {
    TrimEnd(TrimStart(s))
  }

  /** The trim is the slice of `s` with no whitespace at either end, all
      characters around it being whitespace. */
  lemma TrimIsSlice(s: string)
    ensures exists a :: TrimmedAt(s, Trim(s), a)
    ensures var r := Trim(s); |r| == 0 || (!IsWhitespace(r[0]) && !IsWhitespace(r[|r| - 1]))
  {
    TrimStartShape(s);
    TrimEndShape(TrimStart(s));
    TrimmedAtBoth(s, TrimStart(s), Trim(s));
  }

  /** Trimming the start, then the end, leaves a slice of `s` with only
      whitespace around it and none at its ends. */
  lemma TrimmedAtBoth(s: string, t: string, r: string)
    requires |t| <= |s| && t == s[|s| - |t|..]
    requires forall i :: 0 <= i < |s| - |t| ==> IsWhitespace(s[i])
    requires |t| == 0 || !IsWhitespace(t[0])
    requires |r| <= |t| && r == t[..|r|]
    requires forall i :: |r| <= i < |t| ==> IsWhitespace(t[i])
    requires |r| == 0 || !IsWhitespace(r[|r| - 1])
    ensures TrimmedAt(s, r, |s| - |t|)
    ensures |r| == 0 || (!IsWhitespace(r[0]) && !IsWhitespace(r[|r| - 1]))
  {
    var a := |s| - |t|;
    assert forall i :: a <= i < |s| ==> s[i] == t[i - a];
  }

  /** A string with no whitespace at either end is its own trim. */
  lemma TrimNoOp(s: string)
    requires |s| == 0 || (!IsWhitespace(s[0]) && !IsWhitespace(s[|s| - 1]))
    ensures Trim(s) == s
  {
    assert TrimStart(s) == s;
  }

  /** Leading whitespace does not change the trim. */
  lemma TrimSkipsSpace(c: char, s: string)
    requires IsWhitespace(c)
    ensures Trim([c] + s) == Trim(s)
  {
    assert ([c] + s)[1..] == s;
  }

  /** `xs.join(sep)`. */
  function Join(xs: seq<string>, sep: string): (r: string)
    ensures |xs| == 0 ==> r == ""
    ensures |xs| == 1 ==> r == xs[0]
    ensures |xs| >= 1 ==> StartsWith(r, xs[0])
  {
    if |xs| == 0 then ""
    else if |xs| == 1 then xs[0]
    else xs[0] + sep + Join(xs[1..], sep)
  }

  /** `s.split("\n")`: the pieces between line feeds; `n` line feeds give
      `n + 1` pieces, so the result is never empty. */
  function Split(s: string): (r: seq<string>)
    ensures |r| >= 1
  {
    if |s| == 0 then [""]
    else if s[0] == '\n' then [""] + Split(s[1..])
    else
      var rest := Split(s[1..]);
      [[s[0]] + rest[0]] + rest[1..]
  }

  /** No piece of a split holds a line feed. */
  lemma {:induction false} SplitPieces(s: string)
    ensures forall i :: 0 <= i < |Split(s)| ==> '\n' !in Split(s)[i]
    decreases |s|
  {
    if |s| > 0 {
      SplitPieces(s[1..]);
      var rest := Split(s[1..]);
      if s[0] != '\n' {
        assert '\n' !in [s[0]] + rest[0];
        assert forall i :: 1 <= i < |Split(s)| ==> Split(s)[i] == rest[i];
      } else {
        assert forall i :: 1 <= i < |Split(s)| ==> Split(s)[i] == rest[i - 1];
      }
    }
  }

  /** Round trip: joining the pieces of a split with "\n" rebuilds the string. */
  lemma {:induction false} JoinSplit(s: string)
    ensures Join(Split(s), "\n") == s
    decreases |s|
  {
    if |s| > 0 {
      var rest := Split(s[1..]);
      JoinSplit(s[1..]);
      assert s == [s[0]] + s[1..];
      if s[0] == '\n' {
        assert ([""] + rest)[1..] == rest;
      } else {
        var r := [[s[0]] + rest[0]] + rest[1..];
        assert r[1..] == rest[1..];
        if |rest| > 1 {
          assert Join(rest, "\n") == rest[0] + "\n" + Join(rest[1..], "\n");
        }
      }
    }
  }

  /** All pieces but the last of a split (the complete lines). */
  function Init<T>(xs: seq<T>): seq<T>
    requires |xs| >= 1
  {
    xs[..|xs| - 1]
  }

  /** The last piece of a split (the unterminated tail). */
  function Last<T>(xs: seq<T>): T
    requires |xs| >= 1
  {
    xs[|xs| - 1]
  }

  /** Each line followed by a line feed, all concatenated. */
  function Terminated(lines: seq<string>): string
  {
    if |lines| == 0 then "" else Terminated(Init(lines)) + Last(lines) + "\n"
  }

  /** The concatenation of a sequence of strings. */
  function Concat(xs: seq<string>): string
  {
    if |xs| == 0 then "" else Concat(Init(xs)) + Last(xs)
  }

  /** `Concat` of a sequence with a first element. */
  lemma {:induction false} ConcatCons(x: string, ys: seq<string>)
    ensures Concat([x] + ys) == x + Concat(ys)
    decreases |ys|
  {
    if |ys| > 0 {
      ConcatCons(x, Init(ys));
      assert Init([x] + ys) == [x] + Init(ys);
      assert Last([x] + ys) == Last(ys);
    } else {
      assert Init([x] + ys) == [];
    }
  }

  /** A string without line feeds splits into itself alone. */
  lemma {:induction false} SplitNoLineFeed(s: string)
    requires '\n' !in s
    ensures Split(s) == [s]
    decreases |s|
  {
    if |s| > 0 {
      assert '\n' !in s[1..] by {
        forall i | 0 <= i < |s| - 1 ensures s[1..][i] != '\n' { assert s[1..][i] == s[i + 1]; }
      }
      SplitNoLineFeed(s[1..]);
      assert [s[0]] + s[1..] == s;
    }
  }

  /** Splitting at the first line feed. */
  lemma {:induction false} SplitCons(a: string, b: string)
    requires '\n' !in a
    ensures Split(a + "\n" + b) == [a] + Split(b)
    decreases |a|
  {
    if |a| == 0 {
      assert (a + "\n" + b)[1..] == b;
    } else {
      var s := a + "\n" + b;
      assert s[0] == a[0];
      assert '\n' !in a[1..] by {
        forall i | 0 <= i < |a| - 1 ensures a[1..][i] != '\n' { assert a[1..][i] == a[i + 1]; }
      }
      assert s[1..] == a[1..] + "\n" + b;
      SplitCons(a[1..], b);
      assert [a[0]] + a[1..] == a;
    }
  }

  /** Round trip: joining line-feed-free pieces with "\n" and splitting
      again gives the pieces back. */
  lemma {:induction false} SplitJoin(xs: seq<string>)
    requires |xs| >= 1
    requires forall i :: 0 <= i < |xs| ==> '\n' !in xs[i]
    ensures Split(Join(xs, "\n")) == xs
    decreases |xs|
  {
    if |xs| == 1 {
      SplitNoLineFeed(xs[0]);
    } else {
      SplitJoin(xs[1..]);
      SplitCons(xs[0], Join(xs[1..], "\n"));
      assert [xs[0]] + xs[1..] == xs;
    }
  }

  /** Splitting a string that starts with a character other than a line feed
      extends the first piece. */
  lemma SplitHead(c: char, u: string)
    requires c != '\n'
    ensures Split([c] + u) == [[c] + Split(u)[0]] + Split(u)[1..]
  {
    assert ([c] + u)[1..] == u;
  }

  /** Splitting `s + t` splits `s`, then resumes from its unterminated tail. */
  lemma {:induction false} SplitAppend(s: string, t: string)
    ensures Split(s + t) == Init(Split(s)) + Split(Last(Split(s)) + t)
    decreases |s|
  {
    if |s| == 0 {
      assert s + t == t;
      assert "" + t == t;
    } else {
      var c, u := s[0], s[1..];
      assert s == [c] + u;
      assert s + t == [c] + (u + t);
      SplitAppend(u, t);
      if c == '\n' {
        SplitAppendNewline(u, t);
      } else {
        SplitAppendWord(c, u, t);
      }
    }
  }

  /** The step of `SplitAppend` for a leading line feed. */
  lemma SplitAppendNewline(s: string, t: string)
    requires Split(s + t) == Init(Split(s)) + Split(Last(Split(s)) + t)
    ensures Split(['\n'] + (s + t)) == Init(Split(['\n'] + s)) + Split(Last(Split(['\n'] + s)) + t)
  {
    var rest := Split(s);
    SplitNewline(s + t);
    SplitNewline(s);
    assert Init([""] + rest) == [""] + Init(rest);
    assert Last([""] + rest) == Last(rest);
    SeqAssoc([""], Init(rest), Split(Last(rest) + t));
  }

  lemma SeqAssoc<T>(a: seq<T>, b: seq<T>, c: seq<T>)
    ensures a + b + c == a + (b + c)
  {
  }

  /** A leading line feed ends an empty first piece. */
  lemma SplitNewline(u: string)
    ensures Split(['\n'] + u) == [""] + Split(u)
  {
    assert (['\n'] + u)[1..] == u;
  }

  /** The step of `SplitAppend` for a leading character that is not a line feed. */
  lemma SplitAppendWord(c: char, s: string, t: string)
    requires c != '\n'
    requires Split(s + t) == Init(Split(s)) + Split(Last(Split(s)) + t)
    ensures Split([c] + (s + t)) == Init(Split([c] + s)) + Split(Last(Split([c] + s)) + t)
  {
    if |Split(s)| == 1 {
      SplitAppendWordShort(c, s, t);
    } else {
      SplitAppendWordLong(c, s, t);
    }
  }

  lemma SplitAppendWordShort(c: char, s: string, t: string)
    requires c != '\n'
    requires |Split(s)| == 1
    requires Split(s + t) == Init(Split(s)) + Split(Last(Split(s)) + t)
    ensures Split([c] + (s + t)) == Init(Split([c] + s)) + Split(Last(Split([c] + s)) + t)
  {
    var p := Split(s)[0];
    assert Init(Split(s)) == [];
    assert Split(s + t) == Split(p + t);
    SplitHead(c, s + t);
    SplitHead(c, s);
    assert Split([c] + s) == [[c] + p];
    assert ([c] + p) + t == [c] + (p + t);
    SplitHead(c, p + t);
  }

  lemma SplitAppendWordLong(c: char, s: string, t: string)
    requires c != '\n'
    requires |Split(s)| > 1
    requires Split(s + t) == Init(Split(s)) + Split(Last(Split(s)) + t)
    ensures Split([c] + (s + t)) == Init(Split([c] + s)) + Split(Last(Split([c] + s)) + t)
  {
    var rest := Split(s);
    var r := Split(s + t);
    var tail := Split(Last(rest) + t);
    SplitHead(c, s + t);
    SplitHead(c, s);
    assert r == Init(rest) + tail;
    assert r[0] == rest[0];
    assert r[1..] == Init(rest)[1..] + tail;
    assert Init([[c] + rest[0]] + rest[1..]) == [[c] + rest[0]] + Init(rest)[1..];
    assert Last([[c] + rest[0]] + rest[1..]) == Last(rest);
  }

  /** The complete lines followed by line feeds, then the tail, rebuild the
      split string. */
  lemma {:induction false} TerminatedJoin(xs: seq<string>)
    requires |xs| >= 1
    ensures Terminated(Init(xs)) + Last(xs) == Join(xs, "\n")
    decreases |xs|
  {
    if |xs| > 1 {
      TerminatedJoin(xs[1..]);
      TerminatedCons(xs[0], Init(xs[1..]));
      assert [xs[0]] + Init(xs[1..]) == Init(xs);
      assert Last(xs[1..]) == Last(xs);
    }
  }

  /** `Terminated` of a sequence with a first element. */
  lemma {:induction false} TerminatedCons(x: string, ys: seq<string>)
    ensures Terminated([x] + ys) == x + "\n" + Terminated(ys)
    decreases |ys|
  {
    if |ys| == 0 {
      assert Init([x] + ys) == [];
    } else {
      TerminatedCons(x, Init(ys));
      assert Init([x] + ys) == [x] + Init(ys);
      assert Last([x] + ys) == Last(ys);
    }
  }

  /** `n` in decimal, as template literals print it (no leading zeros). */
  function Decimal(n: nat): (r: string)
    ensures |r| >= 1
    ensures forall i :: 0 <= i < |r| ==> '0' <= r[i] <= '9'
    ensures n > 0 ==> r[0] != '0'
  {
    if n < 10 then [Digit(n)] else Decimal(n / 10) + [Digit(n % 10)]
  }

  function Digit(d: nat): (c: char)
    requires d < 10
    ensures '0' <= c <= '9' && c as int - '0' as int == d
  {
    ('0' as int + d) as char
  }

  /** The value of a string of decimal digits. */
  function DecimalValue(s: string): nat
    requires forall i :: 0 <= i < |s| ==> '0' <= s[i] <= '9'
  {
    if |s| == 0 then 0 else 10 * DecimalValue(s[..|s| - 1]) + (s[|s| - 1] as int - '0' as int)
  }

  /** Round trip: reading back the printed decimal gives the number. */
  lemma {:induction false} DecimalRoundTrip(n: nat)
    ensures DecimalValue(Decimal(n)) == n
  {
    if n >= 10 {
      DecimalRoundTrip(n / 10);
      var s := Decimal(n);
      assert s[..|s| - 1] == Decimal(n / 10);
    }
  }

  /** Printing decimals is injective. */
  lemma DecimalInjective(m: nat, n: nat)
    requires Decimal(m) == Decimal(n)
    ensures m == n
  {
    DecimalRoundTrip(m);
    DecimalRoundTrip(n);
  }
}
