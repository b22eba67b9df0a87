/**
 The text that is written: what came in line by line, with another payload in the data line of a rewritten
 frame, and one event for each value that a flush brings out.
 */
module SseText {
  import opened SseFrames
  import opened Sse
  import opened Wrappers

  function JoinLines(lines: seq<string>, newline: string): string
    requires lines != []
  {
    if |lines| == 1 then lines[0] else lines[0] + (newline + JoinLines(lines[1..], newline))
  }

  predicate HasCrLf(s: string) {
    s != "" && (LineEnd(s) == 2 || HasCrLf(s[1..]))
  }

  /** The line end that a rewritten frame is joined with. */
  function Newline(s: string): string {
    if HasCrLf(s) then "\r\n" else "\n"
  }

  function NewTexts(values: seq<Value>): seq<string> {
    seq(|values|, i requires 0 <= i < |values| => values[i].text)
  }

  /** The frame with its payload serialised anew. */
  function Rewrite(env: Env, frame: string, values: seq<Value>): string {
    var lines := Lines(frame);
    var i := DataIndex(lines);
    match Payload(lines)
    case None => frame
    case Some(payload) =>
      JoinLines(lines[i := Prefix(lines[i]) + env.codec.encode(payload, NewTexts(values))], Newline(frame))
  }

  function Written(env: Env, e: Emission): string {
    match e
    case Raw(f) => f.text + f.separator
    case Rewritten(f, values) => Rewrite(env, f.text, values) + f.separator
    case Tail(v, shape) => "data: " + env.codec.wrap(shape, v.text) + "\n\n"
    case Document(v, shape) => "data: " + env.codec.wrap(shape, v.text) + "\n\n"
  }

  function WrittenAll(env: Env, es: seq<Emission>): string {
    if es == [] then "" else WrittenAll(env, es[..|es| - 1]) + Written(env, es[|es| - 1])
  }

  lemma {:induction false} TextAppend(env: Env, a: seq<Emission>, b: seq<Emission>)
    ensures WrittenAll(env, a + b) == WrittenAll(env, a) + WrittenAll(env, b)
    decreases |b|
  {
    hide Written;
    if b == [] {
      assert a + b == a;
    } else {
      var init, e := b[..|b| - 1], b[|b| - 1];
      assert (a + b)[..|a + b| - 1] == a + init;
      TextAppend(env, a, init);
      assert WrittenAll(env, a) + WrittenAll(env, init) + Written(env, e) ==
             WrittenAll(env, a) + (WrittenAll(env, init) + Written(env, e));
    }
  }

  lemma TextNone(env: Env)
    ensures WrittenAll(env, []) == ""
  {
  }

  lemma TextOne(env: Env, e: Emission)
    ensures WrittenAll(env, [e]) == Written(env, e)
  {
    hide Written;
    assert [e][..0] == [] && "" + Written(env, e) == Written(env, e);
  }

  // ---- reading a rewritten frame ----

  predicate EndsInCr(line: string) {
    line != "" && line[|line| - 1] == '\r'
  }

  /** Lines hold no LF, and without a CRLF in the text none but the last ends in CR. */
  lemma {:induction false} LinesClean(s: string)
    ensures forall i :: 0 <= i < |Lines(s)| ==> '\n' !in Lines(s)[i]
    ensures !HasCrLf(s) ==> forall i :: 0 <= i < |Lines(s)| - 1 ==> !EndsInCr(Lines(s)[i])
    decreases |s|
  {
    if s != "" {
      var n := LineEnd(s);
      if n > 0 {
        LinesClean(s[n..]);
      } else {
        LinesClean(s[1..]);
        var ls := Lines(s[1..]);
        assert HasCrLf(s[1..]) ==> HasCrLf(s);
        if !HasCrLf(s) && |ls| > 1 {
          if ls[0] == "" {
            assert LineEnd(s[1..]) == 1 && s[1] == '\n';
          } else {
            assert ([s[0]] + ls[0])[|ls[0]|] == ls[0][|ls[0]| - 1] && !EndsInCr(ls[0]);
          }
        }
      }
    }
  }

  lemma {:induction false} LinesNext(line: string, newline: string, rest: string)
    requires '\n' !in line && (newline == "\r\n" || (newline == "\n" && !EndsInCr(line)))
    ensures Lines(line + (newline + rest)) == [line] + Lines(rest)
    decreases |line|
  {
    var s := line + (newline + rest);
    if line == "" {
      assert s == newline + rest && s[|newline|..] == rest;
    } else {
      assert s[0] == line[0] && line[0] in line;
      assert s[1..] == line[1..] + (newline + rest);
      LinesNext(line[1..], newline, rest);
      assert [line[0]] + line[1..] == line;
      assert |line| > 1 ==> s[1] == line[1] && line[1] in line;
    }
  }

  lemma {:induction false} LastLine(line: string)
    requires '\n' !in line
    ensures Lines(line) == [line]
  {
    if line != "" {
      assert line[0] in line && (|line| > 1 ==> line[1] in line);
      LastLine(line[1..]);
      assert [line[0]] + line[1..] == line;
    }
  }

  lemma {:induction false} LinesJoined(lines: seq<string>, newline: string)
    requires lines != [] && newline in ["\n", "\r\n"]
    requires forall i :: 0 <= i < |lines| ==> '\n' !in lines[i]
    requires newline == "\n" ==> forall i :: 0 <= i < |lines| - 1 ==> !EndsInCr(lines[i])
    ensures Lines(JoinLines(lines, newline)) == lines
  {
    hide Lines;
    if |lines| == 1 {
      LastLine(lines[0]);
    } else {
      LinesNext(lines[0], newline, JoinLines(lines[1..], newline));
      LinesJoined(lines[1..], newline);
    }
  }

  /** Serialised JSON is not empty, starts with no white space and has no line terminator. */
  predicate Plain(json: string) {
    json != "" && !IsSpace(json[0]) && forall i :: 0 <= i < |json| ==> !IsTerminator(json[i])
  }

  /**
   Read again, a rewritten frame has the lines it came with, but for the data line, and the payload there is
   the one with the new values.
   */
  lemma RewrittenReads(env: Env, frame: string, values: seq<Value>)
    requires var p := Payload(Lines(frame)); p.Some? && Plain(env.codec.encode(p.value, NewTexts(values)))
    ensures var lines, back := Lines(frame), Lines(Rewrite(env, frame, values));
            var i := DataIndex(lines);
            && |back| == |lines| && (forall j :: 0 <= j < |lines| && j != i ==> back[j] == lines[j])
            && Payload(back) == Some(env.codec.encode(Payload(lines).value, NewTexts(values)))
  {
    hide Lines, NewTexts, IsSpace, HasCrLf, JoinLines;
    var lines := Lines(frame);
    var i := DataIndex(lines);
    var json := env.codec.encode(Payload(lines).value, NewTexts(values));
    var line := Prefix(lines[i]) + json;
    LinesClean(frame);
    assert '\n' !in line by { LineClean(lines[i], json); }
    assert line[|line| - 1] == json[|json| - 1];
    LinesJoined(lines[i := line], Newline(frame));
    PrefixAgain(lines[i], json);
    DataIndexAgain(lines, line);
    assert line[|Prefix(line)|..] == json;
  }

  lemma LineClean(line: string, json: string)
    requires "data:" <= line && '\n' !in line && Plain(json)
    ensures '\n' !in Prefix(line) + json
  {
    hide IsSpace;
  }

  lemma PrefixAgain(line: string, json: string)
    requires "data:" <= line && Plain(json)
    ensures "data:" <= Prefix(line) + json && Prefix(Prefix(line) + json) == Prefix(line)
  {
    hide IsSpace;
  }

  lemma {:induction false} DataIndexAgain(lines: seq<string>, line: string)
    requires DataIndex(lines) < |lines| && "data:" <= line
    ensures DataIndex(lines[DataIndex(lines) := line]) == DataIndex(lines)
  {
    var i := DataIndex(lines);
    if i > 0 {
      DataIndexAgain(lines[1..], line);
      assert lines[i := line][1..] == lines[1..][i - 1 := line];
    }
  }
}
