/** The browser's streaming loop: decoded text arrives in chunks, is cut into
    lines, and every `data:` line contributes a fragment to the reply being
    shown, with at most one space put in front of it so that words and
    punctuation split across fragments do not run together. */
module Reassembly {
  import opened Text
  import opened Wrappers

  /** The loop's variables: the unterminated line carried over (`buffer`),
      the reply so far (`respuestaCompleta`) and the last character appended
      (`ultimoChar`, a string of length 0 or 1 as `slice(-1)` returns it). */
  datatype State = State(buffer: string, respuesta: string, ultimoChar: string)

  /** The variables before the first read. */
  const Start := State("", "", "")

  const DataPrefix := "data:"
  const DoneMarker := "[DONE]"
  const LineBreakMarker := "###"

  /** The regular-expression class `[a-zA-Z0-9áéíóúñ]`: the accented letters
      only in lower case. */
  predicate IsWordChar(c: char) {
    ('a' <= c <= 'z') || ('A' <= c <= 'Z') || ('0' <= c <= '9')
    || c == '\U{E1}' || c == '\U{E9}' || c == '\U{ED}' || c == '\U{F3}' || c == '\U{FA}' || c == '\U{F1}'
  }

  /** The regular-expression class `[.,;:!¡¿?""'*+-]`. */
  predicate IsClosingMark(c: char) {
    c == '.' || c == ',' || c == ';' || c == ':' || c == '!' || c == '\U{A1}' || c == '\U{BF}'
    || c == '?' || c == '"' || c == '\'' || c == '*' || c == '+' || c == '-'
  }

  /** `/[a-zA-Z0-9áéíóúñ]/.test(u)`: some character of `u` is a word character. */
  predicate HasWordChar(u: string) {
    exists i :: 0 <= i < |u| && IsWordChar(u[i])
  }

  /** `/^[a-zA-Z0-9áéíóúñ]/.test(f[0])`. For an empty `f`, `f[0]` is
      `undefined`, which the test reads as the string "undefined", and that
      starts with the word character 'u'. */
  predicate StartsWord(f: string) {
    |f| == 0 || IsWordChar(f[0])
  }

  /** The first rule: the last appended character and the fragment's first
      are both word characters. */
  predicate WordAdjacent(ultimoChar: string, f: string) {
    ultimoChar != "" && HasWordChar(ultimoChar) && StartsWord(f)
  }

  /** The second rule: the reply ends in a closing mark and the fragment
      starts with something other than whitespace. */
  predicate AfterMark(respuesta: string, f: string) {
    respuesta != "" && IsClosingMark(Last(respuesta)) && |f| > 0 && !IsWhitespace(f[0])
  }

  /** `s.slice(-1)`. */
  function SliceLast(s: string): (r: string)
    ensures |r| <= 1
    ensures |s| > 0 <==> |r| == 1
    ensures |s| > 0 ==> r[0] == s[|s| - 1]
  {
    if |s| == 0 then "" else [s[|s| - 1]]
  }

  /** `s.replace(/###/g, "\n")`: left to right, non-overlapping. */
  function ReplaceMarkers(s: string): (r: string)
    ensures |r| <= |s|
    ensures |r| > 0 && r[0] == '#' ==> |s| > 0 && s[0] == '#' && !StartsWith(s, LineBreakMarker)
  {
    if StartsWith(s, LineBreakMarker) then "\n" + ReplaceMarkers(s[3..])
    else if |s| == 0 then ""
    else [s[0]] + ReplaceMarkers(s[1..])
  }

  /** Each marker becomes one line feed: when no marker starts inside `a`
      (a stray `#` may), `a` is kept, the marker after it becomes "\n", and
      the replacement goes on after the marker. */
  lemma {:induction false} ReplaceMarkersSplice(a: string, b: string)
    requires forall i :: 0 <= i < |a| ==> !OccursAt(a + LineBreakMarker + b, LineBreakMarker, i)
    ensures ReplaceMarkers(a + LineBreakMarker + b) == a + "\n" + ReplaceMarkers(b)
    decreases |a|
  {
    var s := a + LineBreakMarker + b;
    if |a| == 0 {
      assert s == LineBreakMarker + b;
      assert s[3..] == b;
    } else {
      assert !OccursAt(s, LineBreakMarker, 0);
      assert !StartsWith(s, LineBreakMarker);
      var t := s[1..];
      assert t == a[1..] + LineBreakMarker + b;
      forall i | 0 <= i < |a[1..]| ensures !OccursAt(t, LineBreakMarker, i) {
        assert !OccursAt(s, LineBreakMarker, i + 1);
        if i + 3 <= |t| {
          assert t[i..i + 3] == s[i + 1..i + 4];
        }
      }
      ReplaceMarkersSplice(a[1..], b);
      assert a == [a[0]] + a[1..];
    }
  }

  /** The replacement never starts with a marker. */
  lemma NoMarkerAtStart(s: string)
    ensures !OccursAt(ReplaceMarkers(s), LineBreakMarker, 0)
  {
    var r := ReplaceMarkers(s);
    if |r| >= 3 && r[0] == '#' {
      var t := ReplaceMarkers(s[1..]);
      assert r == [s[0]] + t;
      if t[0] == '#' {
        var u := ReplaceMarkers(s[1..][1..]);
        assert t == [s[1..][0]] + u;
        assert s[1..][1..] == s[2..];
        assert |u| > 0 ==> u[0] != '#';
      }
    }
  }

  /** After the replacement no marker is left. */
  lemma {:induction false} ReplaceMarkersLeavesNone(s: string)
    ensures forall i :: !OccursAt(ReplaceMarkers(s), LineBreakMarker, i)
    decreases |s|
  {
    var r := ReplaceMarkers(s);
    NoMarkerAtStart(s);
    if |s| > 0 {
      var k := if StartsWith(s, LineBreakMarker) then 3 else 1;
      ReplaceMarkersLeavesNone(s[k..]);
      var t := ReplaceMarkers(s[k..]);
      assert r == r[..1] + t;
      forall i | 1 <= i ensures !OccursAt(r, LineBreakMarker, i) {
        if i + 3 <= |r| {
          assert r[i..i + 3] == t[i - 1..i + 2];
          assert !OccursAt(t, LineBreakMarker, i - 1);
        }
      }
    }
  }

  /** Text without markers passes unchanged. */
  lemma {:induction false} ReplaceMarkersIdentity(s: string)
    requires forall i :: !OccursAt(s, LineBreakMarker, i)
    ensures ReplaceMarkers(s) == s
    decreases |s|
  {
    if |s| > 0 {
      assert !OccursAt(s, LineBreakMarker, 0);
      forall i ensures !OccursAt(s[1..], LineBreakMarker, i) {
        if OccursAt(s[1..], LineBreakMarker, i) {
          assert s[1..][i..i + 3] == s[i + 1..i + 4];
          assert OccursAt(s, LineBreakMarker, i + 1);
        }
      }
      ReplaceMarkersIdentity(s[1..]);
      assert s == [s[0]] + s[1..];
    }
  }

  /** Text without any `#` passes unchanged. */
  lemma {:induction false} ReplaceMarkersNoHash(s: string)
    requires '#' !in s
    ensures ReplaceMarkers(s) == s
    decreases |s|
  {
    if |s| > 0 {
      assert s[0] != '#';
      assert '#' !in s[1..] by {
        forall i | 0 <= i < |s| - 1 ensures s[1..][i] != '#' { assert s[1..][i] == s[i + 1]; }
      }
      ReplaceMarkersNoHash(s[1..]);
      assert s == [s[0]] + s[1..];
    }
  }

  /** The fragment a line contributes: none for a line that does not start
      with `data:` or whose trimmed payload is `[DONE]`; otherwise the
      trimmed payload with every `###` turned into a line feed. */
  function Payload(line: string): Option<string>
  {
    if !StartsWith(line, DataPrefix) then None
    else
      var f := Trim(line[|DataPrefix|..]);
      if f == DoneMarker then None else Some(ReplaceMarkers(f))
  }

  /** A line is skipped exactly when it is not a `data:` line or its trimmed
      payload is `[DONE]`; an accepted fragment holds no marker and is no
      longer than what follows the prefix. */
  lemma PayloadCases(line: string)
    ensures Payload(line).None? <==> !StartsWith(line, DataPrefix) || Trim(line[|DataPrefix|..]) == DoneMarker
    ensures Payload(line).Some? ==> forall i :: !OccursAt(Payload(line).value, LineBreakMarker, i)
    ensures Payload(line).Some? ==> |Payload(line).value| <= |line| - |DataPrefix|
  {
    if StartsWith(line, DataPrefix) {
      TrimIsSlice(line[|DataPrefix|..]);
      ReplaceMarkersLeavesNone(Trim(line[|DataPrefix|..]));
    }
  }

  /** The two spacing rules applied one after the other as written. The
      second looks at the fragment the first produced, so at most one
      space is added, and it is added exactly when one of the rules holds of
      the fragment as it arrived. */
  function Spaced(st: State, f: string): (r: string)
    ensures r == Gap(st, f) + f
  {
    var f1 := if WordAdjacent(st.ultimoChar, f) then " " + f else f;
    assert "" + f == f;
    if AfterMark(st.respuesta, f1) then " " + f1 else f1
  }

  /** The space the rules put in front of fragment `f`, if any. */
  function Gap(st: State, f: string): string {
    if WordAdjacent(st.ultimoChar, f) || AfterMark(st.respuesta, f) then " " else ""
  }

  /** `ultimoChar` is the last character of the reply, or it is empty and the
      reply is empty or does not end in a word character. Either way the
      word rule sees what the reply ends in (`WordRuleSeesReply`). */
  predicate LastCharTracked(st: State) {
    if st.ultimoChar == "" then st.respuesta == "" || !IsWordChar(Last(st.respuesta))
    else st.respuesta != "" && st.ultimoChar == [Last(st.respuesta)]
  }

  /** The loop's invariant: the carried-over buffer holds no line feed, and
      `ultimoChar` is tracked. */
  predicate Valid(st: State) {
    '\n' !in st.buffer && LastCharTracked(st)
  }

  /** `respuestaCompleta += g; ultimoChar = g.slice(-1)`. */
  function Append(st: State, g: string): (r: State)
    ensures r.buffer == st.buffer && r.respuesta == st.respuesta + g
    ensures StartsWith(r.respuesta, st.respuesta)
    ensures r.ultimoChar == SliceLast(g)
    ensures |g| > 0 ==> LastCharTracked(r)
  {
    var r := st.(respuesta := st.respuesta + g, ultimoChar := SliceLast(g));
    assert r.respuesta[..|st.respuesta|] == st.respuesta;
    assert |g| > 0 ==> Last(r.respuesta) == g[|g| - 1];
    r
  }

  /** One pass of the inner `for (const line of lines)` loop. */
  function ProcessLine(st: State, line: string): (r: State)
    ensures r.buffer == st.buffer
    ensures Payload(line).None? ==> r == st
    ensures Payload(line).Some? ==>
      var f := Payload(line).value;
      r.respuesta == st.respuesta + (Gap(st, f) + f)
    ensures Payload(line).Some? ==>
      var f := Payload(line).value;
      r.ultimoChar == SliceLast(Gap(st, f) + f)
    ensures StartsWith(r.respuesta, st.respuesta)
    ensures LastCharTracked(st) ==> LastCharTracked(r)
  {
    match Payload(line)
    case None => st
    case Some(f) =>
      var r := Append(st, Spaced(st, f));
      if LastCharTracked(st) && Gap(st, f) + f == "" then
        EmptyStepTracked(st, f);
        r
      else r
  }

  /** An accepted fragment that adds nothing (empty, with no space in front)
      leaves the reply as it is and empties `ultimoChar`, which keeps it
      tracked: no space means the reply does not end in a word character. */
  lemma EmptyStepTracked(st: State, f: string)
    requires LastCharTracked(st) && Gap(st, f) + f == ""
    ensures LastCharTracked(st.(ultimoChar := ""))
  {
    assert f == "" && !WordAdjacent(st.ultimoChar, f);
    if st.ultimoChar != "" {
      assert !HasWordChar(st.ultimoChar);
      assert !IsWordChar(st.ultimoChar[0]);
    }
  }

  /** The word rule as written tests `ultimoChar`; while it is tracked, that
      is the same as testing the last character of the reply. */
  lemma WordRuleSeesReply(st: State, f: string)
    requires LastCharTracked(st)
    ensures WordAdjacent(st.ultimoChar, f) <==>
      (st.respuesta != "" && IsWordChar(Last(st.respuesta)) && StartsWord(f))
  {
    if st.ultimoChar != "" {
      if IsWordChar(Last(st.respuesta)) {
        assert IsWordChar(st.ultimoChar[0]);
      }
      if HasWordChar(st.ultimoChar) {
        var i :| 0 <= i < |st.ultimoChar| && IsWordChar(st.ultimoChar[i]);
        assert st.ultimoChar[i] == Last(st.respuesta);
      }
    }
  }

  lemma PrefixTransitive(a: string, b: string, c: string)
    requires StartsWith(b, a) && StartsWith(c, b)
    ensures StartsWith(c, a)
  {
    assert c[..|a|] == c[..|b|][..|a|];
  }

  /** The inner loop over a read's complete lines, in order. */
  function ProcessLines(st: State, lines: seq<string>): (r: State)
    ensures r.buffer == st.buffer
    ensures StartsWith(r.respuesta, st.respuesta)
    ensures LastCharTracked(st) ==> LastCharTracked(r)
  {
    if |lines| == 0 then st
    else
      var mid := ProcessLines(st, Init(lines));
      var r := ProcessLine(mid, Last(lines));
      PrefixTransitive(st.respuesta, mid.respuesta, r.respuesta);
      r
  }

  /** `buffer += text; lines = buffer.split("\n"); buffer = lines.pop() || ""`:
      the complete lines, each with its line feed, followed by the new buffer,
      are exactly the old buffer plus the new text, and no line feed is left
      in the buffer. */
  function TakeLines(buffer: string, text: string): (r: (seq<string>, string))
    ensures Terminated(r.0) + r.1 == buffer + text
    ensures '\n' !in r.1
    ensures forall k :: 0 <= k < |r.0| ==> '\n' !in r.0[k]
  {
    var parts := Split(buffer + text);
    TerminatedJoin(parts);
    JoinSplit(buffer + text);
    SplitPieces(buffer + text);
    (Init(parts), Last(parts))
  }

  /** One `reader.read()` that delivered `text`. */
  function Receive(st: State, text: string): (r: State)
    ensures '\n' !in r.buffer
    ensures StartsWith(r.respuesta, st.respuesta)
    ensures LastCharTracked(st) ==> LastCharTracked(r)
  {
    var (lines, rest) := TakeLines(st.buffer, text);
    ProcessLines(st.(buffer := rest), lines)
  }

  /** The whole loop over the decoded chunks, in arrival order. */
  function Reassemble(chunks: seq<string>): (r: State)
    ensures Valid(r)
  {
    if |chunks| == 0 then Start else Receive(Reassemble(Init(chunks)), Last(chunks))
  }

  /** The two spacing rules never both hold of the fragment as it arrives
      while `ultimoChar` is tracked: a word character is not a closing mark. */
  lemma RulesExclusive(st: State, f: string)
    requires LastCharTracked(st)
    ensures !(WordAdjacent(st.ultimoChar, f) && AfterMark(st.respuesta, f))
  {
    if WordAdjacent(st.ultimoChar, f) {
      var i :| 0 <= i < |st.ultimoChar| && IsWordChar(st.ultimoChar[i]);
      assert st.ultimoChar[i] == Last(st.respuesta);
    }
  }

  /** The empty-fragment quirk: a `data:` line with nothing after it, arriving
      after a word character, appends a single space. */
  lemma EmptyFragmentAfterWord(st: State)
    requires st.ultimoChar != "" && IsWordChar(st.ultimoChar[0])
    ensures ProcessLine(st, DataPrefix).respuesta == st.respuesta + " "
    ensures ProcessLine(st, DataPrefix).ultimoChar == " "
  {
    assert DataPrefix[|DataPrefix|..] == "";
    assert Payload(DataPrefix) == Some("");
    assert HasWordChar(st.ultimoChar);
  }

  /** The accepted fragments of a sequence of lines, before any spacing. */
  function Payloads(lines: seq<string>): seq<string>
  {
    if |lines| == 0 then []
    else
      match Payload(Last(lines))
      case None => Payloads(Init(lines))
      case Some(f) => Payloads(Init(lines)) + [f]
  }

  /** The fragments joined, each preceded by a space where `spaces` says so. */
  function Interleave(spaces: seq<bool>, parts: seq<string>): string
    requires |spaces| == |parts|
  {
    if |parts| == 0 then ""
    else Interleave(Init(spaces), Init(parts)) + (if Last(spaces) then " " else "") + Last(parts)
  }

  /** Apart from the inserted spaces, the reply grows by exactly the accepted
      fragments, in order. */
  lemma {:induction false} OnlySpacesInserted(st: State, lines: seq<string>)
    ensures exists spaces: seq<bool> ::
              && |spaces| == |Payloads(lines)|
              && ProcessLines(st, lines).respuesta == st.respuesta + Interleave(spaces, Payloads(lines))
  {
    if |lines| == 0 {
      assert ProcessLines(st, lines).respuesta == st.respuesta + Interleave([], []);
    } else {
      OnlySpacesInserted(st, Init(lines));
      var ps := Payloads(Init(lines));
      var spaces: seq<bool> :| |spaces| == |ps|
        && ProcessLines(st, Init(lines)).respuesta == st.respuesta + Interleave(spaces, ps);
      var sp := OnlySpacesStep(st, lines, spaces);
    }
  }

  /** The step of `OnlySpacesInserted`: the spaces so far, extended by the
      last line's. */
  lemma OnlySpacesStep(st: State, lines: seq<string>, spaces: seq<bool>) returns (sp: seq<bool>)
    requires |lines| > 0 && |spaces| == |Payloads(Init(lines))|
    requires ProcessLines(st, Init(lines)).respuesta == st.respuesta + Interleave(spaces, Payloads(Init(lines)))
    ensures |sp| == |Payloads(lines)|
    ensures ProcessLines(st, lines).respuesta == st.respuesta + Interleave(sp, Payloads(lines))
  {
    if Payload(Last(lines)).None? {
      SkippedLineStep(st, lines);
      sp := spaces;
    } else {
      sp := AcceptedLineStep(st, lines, spaces);
    }
  }

  lemma SkippedLineStep(st: State, lines: seq<string>)
    requires |lines| > 0 && Payload(Last(lines)).None?
    ensures Payloads(lines) == Payloads(Init(lines))
    ensures ProcessLines(st, lines) == ProcessLines(st, Init(lines))
  {
  }

  lemma AcceptedLineStep(st: State, lines: seq<string>, spaces: seq<bool>) returns (sp: seq<bool>)
    requires |lines| > 0 && Payload(Last(lines)).Some?
    requires |spaces| == |Payloads(Init(lines))|
    requires ProcessLines(st, Init(lines)).respuesta == st.respuesta + Interleave(spaces, Payloads(Init(lines)))
    ensures |sp| == |Payloads(lines)|
    ensures ProcessLines(st, lines).respuesta == st.respuesta + Interleave(sp, Payloads(lines))
  {
    var ps := Payloads(Init(lines));
    var f := Payload(Last(lines)).value;
    var b := AcceptedLineSpace(st, lines);
    PayloadsAccepted(lines);
    InterleaveSnoc(spaces, ps, b, f);
    sp := spaces + [b];
    var x := (if b then " " else "") + f;
    SeqAssoc(st.respuesta, Interleave(spaces, ps), x);
  }

  /** The reply after an accepted last line: the reply before it, then the
      fragment, with a space in front when a rule fired. */
  lemma AcceptedLineSpace(st: State, lines: seq<string>) returns (b: bool)
    requires |lines| > 0 && Payload(Last(lines)).Some?
    ensures ProcessLines(st, lines).respuesta
         == ProcessLines(st, Init(lines)).respuesta + ((if b then " " else "") + Payload(Last(lines)).value)
  {
    var mid := ProcessLines(st, Init(lines));
    var f := Payload(Last(lines)).value;
    b := WordAdjacent(mid.ultimoChar, f) || AfterMark(mid.respuesta, f);
  }

  lemma PayloadsAccepted(lines: seq<string>)
    requires |lines| > 0 && Payload(Last(lines)).Some?
    ensures Payloads(lines) == Payloads(Init(lines)) + [Payload(Last(lines)).value]
  {
  }

  lemma InterleaveSnoc(spaces: seq<bool>, parts: seq<string>, b: bool, f: string)
    requires |spaces| == |parts|
    ensures Interleave(spaces + [b], parts + [f]) == Interleave(spaces, parts) + ((if b then " " else "") + f)
  {
    assert Init(spaces + [b]) == spaces;
    assert Init(parts + [f]) == parts;
  }

  /** Processing lines in two batches is processing them in one. */
  lemma {:induction false} ProcessLinesAppend(st: State, a: seq<string>, b: seq<string>)
    ensures ProcessLines(st, a + b) == ProcessLines(ProcessLines(st, a), b)
    decreases |b|
  {
    if |b| == 0 {
      assert a + b == a;
    } else {
      ProcessLinesAppend(st, a, Init(b));
      ProcessLinesSnoc(st, a, b);
    }
  }

  /** The last line of `a + b` is the last line of `b`. */
  lemma ProcessLinesSnoc(st: State, a: seq<string>, b: seq<string>)
    requires |b| > 0
    ensures ProcessLines(st, a + b) == ProcessLine(ProcessLines(st, a + Init(b)), Last(b))
  {
    assert Init(a + b) == a + Init(b);
    assert Last(a + b) == Last(b);
  }

  /** The carried-over buffer plays no part in processing complete lines. */
  lemma {:induction false} ProcessLinesIgnoresBuffer(st: State, buffer: string, lines: seq<string>)
    ensures ProcessLines(st.(buffer := buffer), lines) == ProcessLines(st, lines).(buffer := buffer)
  {
    if |lines| > 0 {
      ProcessLinesIgnoresBuffer(st, buffer, Init(lines));
    }
  }

  /** The loop over chunks is the loop over the complete lines of their
      concatenation, with the unterminated rest left in the buffer. */
  lemma {:induction false} ReassembleIsLineFold(chunks: seq<string>)
    ensures var parts := Split(Concat(chunks));
      Reassemble(chunks) == ProcessLines(State(Last(parts), "", ""), Init(parts))
  {
    if |chunks| > 0 {
      var s := Concat(Init(chunks));
      var c := Last(chunks);
      var whole := Split(s);
      ReassembleIsLineFold(Init(chunks));
      var st := Reassemble(Init(chunks));
      assert st == ProcessLines(State(Last(whole), "", ""), Init(whole));
      var parts := Split(Last(whole) + c);
      SplitAppend(s, c);
      assert Concat(chunks) == s + c;
      assert Split(s + c) == Init(whole) + parts;
      assert Init(Split(s + c)) == Init(whole) + Init(parts);
      assert Last(Split(s + c)) == Last(parts);
      ProcessLinesAppend(State(Last(parts), "", ""), Init(whole), Init(parts));
      ProcessLinesIgnoresBuffer(State(Last(whole), "", ""), Last(parts), Init(whole));
    }
  }

  /** Where the transport cuts the stream does not matter: two chunkings of
      the same text end in the same state. */
  lemma ChunkingIrrelevant(chunks: seq<string>, chunks': seq<string>)
    requires Concat(chunks) == Concat(chunks')
    ensures Reassemble(chunks) == Reassemble(chunks')
  {
    ReassembleIsLineFold(chunks);
    ReassembleIsLineFold(chunks');
  }

  /** The final reply is the accepted fragments of the complete lines of the
      stream, in arrival order, with only single spaces added between them. */
  lemma ReplyIsFragments(chunks: seq<string>)
    ensures var parts := Split(Concat(chunks));
      exists spaces: seq<bool> :: |spaces| == |Payloads(Init(parts))|
        && Reassemble(chunks).respuesta == Interleave(spaces, Payloads(Init(parts)))
  {
    var parts := Split(Concat(chunks));
    ReassembleIsLineFold(chunks);
    OnlySpacesInserted(State(Last(parts), "", ""), Init(parts));
  }

  /** A `data:` line contributes its trimmed payload with the markers
      replaced, unless that payload is `[DONE]`. */
  lemma PayloadOfData(x: string)
    requires Trim(x) != DoneMarker
    ensures Payload(DataPrefix + x) == Some(ReplaceMarkers(Trim(x)))
  {
    var line := DataPrefix + x;
    assert line[..|DataPrefix|] == DataPrefix;
    assert line[|DataPrefix|..] == x;
  }

  /** A fragment with nothing to trim and no `#` arrives as it was sent. */
  lemma PlainFragment(x: string)
    requires |x| > 0 && !IsWhitespace(x[0]) && !IsWhitespace(x[|x| - 1])
    requires '#' !in x && x != DoneMarker
    ensures Payload(DataPrefix + x) == Some(x)
  {
    TrimNoOp(x);
    ReplaceMarkersNoHash(x);
    PayloadOfData(x);
  }

  /** The first rule (`/[…]/.test(ultimoChar)` and `/^[…]/.test(fragment[0])`):
      after a word character, any accepted fragment that starts with a word
      character, or is empty, gets one space in front. A word split across
      two fragments ("hol", then "a") is shown with a space inside it
      ("hol a"). */
  lemma SpaceBetweenWordHalves(st: State, line: string, f: string)
    requires Payload(line) == Some(f)
    requires HasWordChar(st.ultimoChar) && StartsWord(f)
    ensures ProcessLine(st, line).respuesta == st.respuesta + (" " + f)
  {
    assert Gap(st, f) == " ";
  }

  /** The second rule: after a closing mark ("Hello.") any accepted fragment
      that starts with anything but whitespace ("How") gets a space in front
      ("Hello. How"). */
  lemma SpaceAfterMark(st: State, line: string, f: string)
    requires Payload(line) == Some(f)
    requires st.respuesta != "" && IsClosingMark(Last(st.respuesta))
    requires |f| > 0 && !IsWhitespace(f[0])
    ensures ProcessLine(st, line).respuesta == st.respuesta + (" " + f)
  {
    assert Gap(st, f) == " ";
  }

  /** When neither rule's test passes on the state and the accepted fragment,
      the fragment is appended as it is. */
  lemma NoSpaceOtherwise(st: State, line: string, f: string)
    requires Payload(line) == Some(f)
    requires !HasWordChar(st.ultimoChar) || !StartsWord(f)
    requires st.respuesta == "" || !IsClosingMark(Last(st.respuesta)) || |f| == 0 || IsWhitespace(f[0])
    ensures ProcessLine(st, line).respuesta == st.respuesta + f
  {
    assert Gap(st, f) == "";
    assert "" + f == f;
  }
}
