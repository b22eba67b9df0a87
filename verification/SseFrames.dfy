/**
 How the stream transformer cuts decoded server-sent-event text into frames: at every leftmost blank
 line, with LF or CRLF line ends, and holding back what is not yet closed by one.
 */
module SseFrames {
  import opened Streaming

  datatype Frame = Frame(text: string, separator: string)

  /** The closed frames of a text and what is left behind the last of them. */
  datatype Cutting = Cutting(frames: seq<Frame>, rest: string)

  /** Length of the line end, LF or CRLF, that a text starts with; 0 if it starts with none. */
  function LineEnd(s: string): (n: nat)
    ensures n <= |s|
  {
    if |s| >= 1 && s[0] == '\n' then 1
    else if |s| >= 2 && s[0] == '\r' && s[1] == '\n' then 2
    else 0
  }

  /** Length of the blank line, two line ends in a row, that a text starts with. */
  function BlankLine(s: string): (n: nat)
    ensures n <= |s| && (n > 0 ==> 2 <= n)
  {
    var n := LineEnd(s);
    if n == 0 then 0
    else
      var m := LineEnd(s[n..]);
      if m == 0 then 0 else n + m
  }

  /** A blank line is two line ends in a row, LF or CRLF each. */
  lemma BlankLineIs(s: string)
    ensures BlankLine(s) ==
            if "\n\n" <= s then 2 else if "\r\n\n" <= s || "\n\r\n" <= s then 3
            else if "\r\n\r\n" <= s then 4 else 0
  {
  }

  /** Where the first blank line starts; the length of the text if it has none. */
  function FirstBlank(s: string): (i: nat)
    ensures i <= |s| && (i < |s| ==> BlankLine(s[i..]) > 0)
  {
    assert s[0..] == s;
    if s == "" || BlankLine(s) > 0 then 0 else 1 + FirstBlank(s[1..])
  }

  ghost predicate IsFirst(s: string, i: nat) {
    && i <= |s| && (i < |s| ==> BlankLine(s[i..]) > 0)
    && forall j :: 0 <= j < i ==> BlankLine(s[j..]) == 0
  }

  lemma {:induction false} FirstIs(s: string, i: nat)
    ensures IsFirst(s, i) <==> i == FirstBlank(s)
  {
    hide BlankLine;
    assert s[0..] == s;
    if s != "" && BlankLine(s) == 0 && i > 0 {
      FirstIs(s[1..], i - 1);
      if i <= |s| {
        assert forall j :: 1 <= j <= |s| ==> s[j..] == s[1..][j - 1..];
        assert IsFirst(s, i) <==> IsFirst(s[1..], i - 1) by {
          if IsFirst(s, i) {
            forall j | 0 <= j < i - 1 ensures BlankLine(s[1..][j..]) == 0 { assert BlankLine(s[j + 1..]) == 0; }
          } else if IsFirst(s[1..], i - 1) {
            forall j | 0 <= j < i ensures BlankLine(s[j..]) == 0 {
              if j > 0 { assert BlankLine(s[1..][j - 1..]) == 0; }
            }
          }
        }
      }
    }
  }

  function Behind(a: seq<Frame>, c: Cutting): Cutting {
    Cutting(a + c.frames, c.rest)
  }

  /** The first frame of a text that has a blank line. */
  function Head(s: string): Frame
    requires FirstBlank(s) < |s|
  {
    var i := FirstBlank(s);
    Frame(s[..i], s[i..i + BlankLine(s[i..])])
  }

  function After(s: string): (rest: string)
    requires FirstBlank(s) < |s|
    ensures |rest| < |s|
  {
    var i := FirstBlank(s);
    s[i + BlankLine(s[i..])..]
  }

  function Frames(s: string): Cutting
    decreases |s|
  {
    if FirstBlank(s) == |s| then Cutting([], s) else Behind([Head(s)], Frames(After(s)))
  }

  function Text(frames: seq<Frame>): string {
    if frames == [] then "" else frames[0].text + frames[0].separator + Text(frames[1..])
  }

  /** A frame ends in a blank line, and that is the first blank line it has. */
  predicate Closed(f: Frame) {
    FirstBlank(f.text + f.separator) == |f.text| && BlankLine(f.separator) == |f.separator| > 0
  }

  // ---- a blank line, once complete, stays where it is ----

  lemma LineEndStays(s: string, more: string)
    requires LineEnd(s) > 0
    ensures LineEnd(s + more) == LineEnd(s)
  {
  }

  lemma BlankStays(s: string, more: string)
    requires BlankLine(s) > 0
    ensures BlankLine(s + more) == BlankLine(s)
  {
    var n := LineEnd(s);
    LineEndStays(s, more);
    assert (s + more)[n..] == s[n..] + more;
    LineEndStays(s[n..], more);
  }

  /** No blank line that starts earlier can be completed by what comes behind. */
  lemma NoEarlierBlank(s: string, more: string, j: nat, i: nat)
    requires j < i < |s| && BlankLine(s[j..]) == 0 && BlankLine(s[i..]) > 0
    ensures BlankLine((s + more)[j..]) == 0
  {
    var t := s + more;
    assert |s| >= i + BlankLine(s[i..]) >= j + 3;
    assert t[j] == s[j] && t[j + 1] == s[j + 1] && t[j + 2] == s[j + 2];
  }

  lemma FirstStays(s: string, more: string)
    requires FirstBlank(s) < |s|
    ensures var i := FirstBlank(s);
            && FirstBlank(s + more) == i
            && BlankLine((s + more)[i..]) == BlankLine(s[i..])
  {
    hide BlankLine, FirstBlank;
    var i, t := FirstBlank(s), s + more;
    FirstIs(s, i);
    assert t[i..] == s[i..] + more;
    BlankStays(s[i..], more);
    forall j | 0 <= j < i
      ensures BlankLine(t[j..]) == 0
    {
      NoEarlierBlank(s, more, j, i);
    }
    FirstIs(t, i);
  }

  lemma BehindTwice(a: seq<Frame>, b: seq<Frame>, c: Cutting)
    ensures Behind(a, Behind(b, c)) == Behind(a + b, c)
  {
    assert a + (b + c.frames) == a + b + c.frames;
  }

  /** One frame at a time. */
  lemma FramesStep(s: string)
    ensures Frames(s) == if FirstBlank(s) == |s| then Cutting([], s) else Behind([Head(s)], Frames(After(s)))
  {
    hide FirstBlank, BlankLine, Behind, Head, After;
  }

  /** The frames of a text that goes on are its frames, then those of what was left with the rest behind it. */
  lemma {:induction false} FramesAppend(s: string, more: string)
    ensures Frames(s + more) == Behind(Frames(s).frames, Frames(Frames(s).rest + more))
    decreases |s|
  {
    hide FirstBlank, BlankLine, Frames;
    var i := FirstBlank(s);
    FramesStep(s);
    if i < |s| {
      FirstStays(s, more);
      var n, t := BlankLine(s[i..]), s + more;
      assert t[..i] == s[..i] && t[i..i + n] == s[i..i + n] && t[i + n..] == s[i + n..] + more;
      FramesStep(t);
      FramesAppend(s[i + n..], more);
      var c := Frames(s[i + n..]);
      BehindTwice([Frame(s[..i], s[i..i + n])], c.frames, Frames(c.rest + more));
    }
  }

  // ---- frames, declaratively ----

  lemma BlankOf(s: string, n: nat)
    requires n == BlankLine(s) > 0
    ensures BlankLine(s[..n]) == n
  {
    var t, m := s[..n], LineEnd(s);
    assert t[m..] == s[m..n];
    assert s[m..][..n - m] == t[m..];
  }

  lemma NoBlankBefore(s: string, h: nat, j: nat)
    requires j <= h <= |s| && BlankLine(s[j..]) == 0
    ensures BlankLine(s[..h][j..]) == 0
  {
    hide BlankLine;
    if BlankLine(s[..h][j..]) > 0 {
      BlankStays(s[..h][j..], s[h..]);
      assert s[..h][j..] + s[h..] == s[j..];
    }
  }

  lemma HeadClosed(s: string)
    requires FirstBlank(s) < |s|
    ensures Closed(Head(s))
  {
    hide BlankLine, FirstBlank, Closed, Head;
    var i := FirstBlank(s);
    var n := BlankLine(s[i..]);
    FirstOfHead(s, i, n);
    HeadParts(s, i, n);
    WholeClosed(s[..i + n], i);
  }

  lemma HeadParts(s: string, i: nat, n: nat)
    requires i == FirstBlank(s) < |s| && n == BlankLine(s[i..])
    ensures var h := s[..i + n]; i < |h| && Head(s) == Frame(h[..i], h[i..]) && BlankLine(h[i..]) == |h| - i
  {
    hide BlankLine, FirstBlank;
    BlankOf(s[i..], n);
    var h := s[..i + n];
    assert s[i..][..n] == s[i..i + n] == h[i..] && h[..i] == s[..i];
  }

  lemma WholeClosed(h: string, i: nat)
    requires i < |h| && FirstBlank(h) == i && BlankLine(h[i..]) == |h| - i
    ensures Closed(Frame(h[..i], h[i..]))
  {
    hide BlankLine, FirstBlank;
    assert h[..i] + h[i..] == h;
  }

  lemma FirstOfHead(s: string, i: nat, n: nat)
    requires i == FirstBlank(s) < |s| && n == BlankLine(s[i..])
    ensures FirstBlank(s[..i + n]) == i
  {
    hide BlankLine, FirstBlank;
    var h := s[..i + n];
    FirstIs(s, i);
    BlankOf(s[i..], n);
    assert s[i..][..n] == h[i..];
    forall j | 0 <= j < i
      ensures BlankLine(h[j..]) == 0
    {
      NoBlankBefore(s, i + n, j);
    }
    FirstIs(h, i);
  }

  lemma ClosedHead(f: Frame, more: string)
    requires Closed(f)
    ensures var s := f.text + f.separator + more;
            && FirstBlank(s) == |f.text| && BlankLine(s[|f.text|..]) == |f.separator|
            && Frames(s) == Behind([f], Frames(more))
  {
    hide BlankLine, FirstBlank, Frames;
    var s, head, i := f.text + f.separator + more, f.text + f.separator, |f.text|;
    assert head[i..] == f.separator;
    FirstStays(head, more);
    FramesStep(s);
    assert s[..i] == f.text && s[i..i + |f.separator|] == f.separator && s[i + |f.separator|..] == more;
  }

  /** Frames closed by their first blank lines, and a rest without one. */
  ghost predicate IsCutting(s: string, c: Cutting) {
    && s == Text(c.frames) + c.rest
    && (forall f :: f in c.frames ==> Closed(f))
    && FirstBlank(c.rest) == |c.rest|
  }

  lemma {:induction false} CuttingIsFrames(s: string, c: Cutting)
    requires IsCutting(s, c)
    ensures c == Frames(s)
    decreases |c.frames|
  {
    hide FirstBlank, BlankLine, Closed, Frames;
    if c.frames == [] {
      assert "" + c.rest == c.rest;
      FramesStep(s);
    } else {
      var f, tail := c.frames[0], Cutting(c.frames[1..], c.rest);
      var more := Text(tail.frames) + c.rest;
      assert s == f.text + f.separator + more;
      assert Closed(f);
      ClosedHead(f, more);
      CuttingIsFrames(more, tail);
    }
  }

  lemma {:induction false} FramesIsCutting(s: string)
    ensures IsCutting(s, Frames(s))
    decreases |s|
  {
    hide FirstBlank, BlankLine, Closed, Frames;
    FramesStep(s);
    var i := FirstBlank(s);
    if i < |s| {
      var n := BlankLine(s[i..]);
      HeadClosed(s);
      FramesIsCutting(s[i + n..]);
      assert s == s[..i] + s[i..i + n] + s[i + n..];
      var f, tail := Frame(s[..i], s[i..i + n]), Frames(s[i + n..]);
      assert Frames(s).frames == [f] + tail.frames;
      assert Frames(s).frames[1..] == tail.frames;
      assert f.text + f.separator + (Text(tail.frames) + tail.rest) ==
             f.text + f.separator + Text(tail.frames) + tail.rest;
    } else {
      assert "" + s == s;
    }
  }

  /**
   Cutting is the one way to take a text apart into frames, each closed by its first blank line, and a
   rest without a blank line.
   */
  lemma FramesExact(s: string, c: Cutting)
    ensures c == Frames(s) <==> IsCutting(s, c)
  {
    hide IsCutting, Frames;
    FramesIsCutting(s);
    if IsCutting(s, c) {
      CuttingIsFrames(s, c);
    }
  }

  // ---- chunk by chunk, under a limit ----

  /** No chunk ever makes what is pending too long. */
  ghost predicate Fits(over: string -> bool, pending: string, chunks: seq<string>) {
    forall i :: 0 <= i < |chunks| ==> !over(Frames(pending + Join(chunks[..i])).rest + chunks[i])
  }

  /** What is pending after the first chunk and some more depends on what the first one left pending. */
  lemma PendingNext(pending: string, chunks: seq<string>, i: nat)
    requires 1 <= i <= |chunks|
    ensures Frames(pending + Join(chunks[..i])).rest ==
            Frames(Frames(pending + chunks[0]).rest + Join(chunks[1..][..i - 1])).rest
  {
    hide Frames;
    var more := Join(chunks[1..][..i - 1]);
    assert chunks[..i][0] == chunks[0] && chunks[..i][1..] == chunks[1..][..i - 1];
    assert pending + Join(chunks[..i]) == pending + chunks[0] + more;
    FramesAppend(pending + chunks[0], more);
  }

  lemma FitsNext(over: string -> bool, pending: string, chunks: seq<string>)
    requires chunks != [] && Frames(pending).rest == pending
    ensures Fits(over, pending, chunks) <==>
            !over(pending + chunks[0]) && Fits(over, Frames(pending + chunks[0]).rest, chunks[1..])
  {
    hide Frames;
    var rest := Frames(pending + chunks[0]).rest;
    assert chunks[..0] == [] && pending + Join(chunks[..0]) == pending;
    if Fits(over, pending, chunks) {
      assert !over(Frames(pending + Join(chunks[..0])).rest + chunks[0]);
      forall i | 0 <= i < |chunks[1..]|
        ensures !over(Frames(rest + Join(chunks[1..][..i])).rest + chunks[1..][i])
      {
        PendingNext(pending, chunks, i + 1);
        assert !over(Frames(pending + Join(chunks[..i + 1])).rest + chunks[i + 1]);
      }
    } else {
      var i :| 0 <= i < |chunks| && over(Frames(pending + Join(chunks[..i])).rest + chunks[i]);
      if i > 0 {
        PendingNext(pending, chunks, i);
        assert chunks[1..][i - 1] == chunks[i];
        assert over(Frames(rest + Join(chunks[1..][..i - 1])).rest + chunks[1..][i - 1]);
      }
    }
  }

  lemma RestHolds(s: string)
    ensures Frames(Frames(s).rest) == Cutting([], Frames(s).rest)
  {
    hide FirstBlank, BlankLine, Frames;
    FramesIsCutting(s);
    FramesStep(Frames(s).rest);
  }
}
