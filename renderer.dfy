/** The solution document the upload handler writes (backend/app.js:117-151):
    a fixed header, then one pass over the lines of the cleaned solution with
    a two-state machine, prose or code block. The PDF sink is modelled as the
    sequence of styled segments handed to it; fonts, sizes and spacing are
    not modelled. */
module Renderer {
  import opened Strings

  /** What `doc.text` receives, with the style it is written in. */
  datatype Segment =
    | Title(text: string)      // bold, centred
    | Meta(text: string)       // the labelled identity lines
    | Heading(text: string)    // a bold question title
    | Paragraph(text: string)  // ordinary prose
    | Code(text: string)       // fixed width, verbatim

  /** The `inCodeBlock` flag as an explicit state. */
  datatype Mode = Prose | CodeBlock
  {
    function Flip(): (m: Mode)
      ensures m != this
    {
      if this == Prose then CodeBlock else Prose
    }
  }

  const DocumentTitle: string := "Assignment Solution"

  /** The header written before the solution's lines. */
  function Header(enrollment: string, name: string, batch: string): seq<Segment>
  {
    [ Title(DocumentTitle),
      Meta("Enrollment: " + enrollment),
      Meta("Name: " + name),
      Meta("Batch: " + batch) ]
  }

  /** A fence line: its trimmed form starts with three backticks, whatever
      follows them (a language tag, say). */
  predicate IsFence(line: string)
  {
    StartsWith(Trim(line), "```")
  }

  /** The characters the `.` of a JavaScript regular expression does not match. */
  predicate IsLineTerminator(c: char)
  {
    c == '\n' || c == '\r' || c as int == 0x2028 || c as int == 0x2029
  }

  /** A closing `**` at `j`, reached from `k` without crossing a line terminator. */
  ghost predicate ClosesAt(line: string, k: nat, j: nat)
  {
    k <= j && j + 2 <= |line| && line[j..j + 2] == "**" &&
    forall m :: k <= m < j ==> !IsLineTerminator(line[m])
  }

  /** The lazy `(.*?)\*\*` part of the heading pattern, tried from `k`. */
  function FindClose(line: string, k: nat): (found: bool)
    ensures found <==> exists j :: ClosesAt(line, k, j)
    decreases |line| - k
  {
    if k + 2 > |line| then
      assert forall j :: !ClosesAt(line, k, j);
      false
    else if line[k..k + 2] == "**" then
      assert ClosesAt(line, k, k);
      true
    else if IsLineTerminator(line[k]) then
      assert forall j :: !ClosesAt(line, k, j) by {
        forall j | k <= j ensures !ClosesAt(line, k, j) {
          if j > k && j + 2 <= |line| {
            assert k <= k < j && IsLineTerminator(line[k]);
          }
        }
      }
      false
    else
      var found := FindClose(line, k + 1);
      assert found ==> exists j :: ClosesAt(line, k, j) by {
        if found {
          var j :| ClosesAt(line, k + 1, j);
          assert ClosesAt(line, k, j);
        }
      }
      assert (exists j :: ClosesAt(line, k, j)) ==> found by {
        if exists j :: ClosesAt(line, k, j) {
          var j :| ClosesAt(line, k, j);
          assert j != k;
          assert ClosesAt(line, k + 1, j);
        }
      }
      found
  }

  /** The heading test of backend/app.js:143, the regular expression
      ^\*\*(.*?)\*\* : the line opens with `**` and a later `**` closes it
      without a line terminator in between. */
  predicate IsHeading(line: string)
  {
    StartsWith(line, "**") && FindClose(line, 2)
  }

  /** `line.replace` of every `**` by nothing (backend/app.js:144): the
      occurrences, taken left to right without overlap, are removed. */
  function StripBold(s: string): (r: string)
    ensures |r| <= |s|
    decreases |s|
  {
    if |s| >= 2 && s[..2] == "**" then StripBold(s[2..])
    else if s == [] then []
    else [s[0]] + StripBold(s[1..])
  }

  /** The segment a line that is not a fence becomes in mode `mode`. */
  function LineSegment(line: string, mode: Mode): Segment
  {
    if mode == CodeBlock then Code(line)
    else if IsHeading(line) then Heading(StripBold(line))
    else Paragraph(line)
  }

  /** The segments written and the mode reached after a run of lines. */
  datatype Pass = Pass(segments: seq<Segment>, mode: Mode)

  /** The specification of the rendering loop, one line at a time from the
      front: a fence flips the mode and writes nothing, any other line writes
      its segment. */
  function RenderLines(lines: seq<string>, mode: Mode): Pass
  {
    if lines == [] then Pass([], mode)
    else if IsFence(lines[0]) then RenderLines(lines[1..], mode.Flip())
    else
      var rest := RenderLines(lines[1..], mode);
      Pass([LineSegment(lines[0], mode)] + rest.segments, rest.mode)
  }

  /** The rendering loop of the upload handler: the header, then every line
      of the solution in turn. */
  method RenderDocument(solution: string, enrollment: string, name: string, batch: string)
    returns (doc: seq<Segment>, mode: Mode)
    ensures doc == Header(enrollment, name, batch) + RenderLines(Split(solution), Prose).segments
    ensures mode == RenderLines(Split(solution), Prose).mode
  {
    doc := Header(enrollment, name, batch);
    var lines := Split(solution);
    mode := Prose;
    var i := 0;
    while i < |lines|
      invariant 0 <= i <= |lines|
      invariant doc == Header(enrollment, name, batch) + RenderLines(lines[..i], Prose).segments
      invariant mode == RenderLines(lines[..i], Prose).mode
    {
      var line := lines[i];
      RenderAppend(lines[..i], [line], Prose);
      assert lines[..i + 1] == lines[..i] + [line];
      if IsFence(line) {
        mode := mode.Flip();
        i := i + 1;
        continue;
      }
      if mode == CodeBlock {
        doc := doc + [Code(line)];
      } else if IsHeading(line) {
        doc := doc + [Heading(StripBold(line))];
      } else {
        doc := doc + [Paragraph(line)];
      }
      i := i + 1;
    }
    assert lines[..|lines|] == lines;
  }

  /** Rendering is compositional: a run of lines can be rendered in two
      parts, the second starting in the mode the first ends in. */
  lemma {:induction false} RenderAppend(a: seq<string>, b: seq<string>, mode: Mode)
    ensures var first := RenderLines(a, mode);
      var second := RenderLines(b, first.mode);
      RenderLines(a + b, mode) == Pass(first.segments + second.segments, second.mode)
  {
    if a == [] {
      assert a + b == b;
    } else {
      assert (a + b)[0] == a[0] && (a + b)[1..] == a[1..] + b;
      if IsFence(a[0]) {
        RenderAppend(a[1..], b, mode.Flip());
      } else {
        RenderAppend(a[1..], b, mode);
      }
    }
  }

  /** The number of fence lines. */
  function CountFences(lines: seq<string>): (n: nat)
    ensures n <= |lines|
  {
    if lines == [] then 0
    else (if IsFence(lines[0]) then 1 else 0) + CountFences(lines[1..])
  }

  /** Exactly one segment per line that is not a fence, and the final mode
      is the starting mode flipped once per fence: an unterminated fence
      simply leaves the pass in code mode. */
  lemma {:induction false} RenderCounts(lines: seq<string>, mode: Mode)
    ensures |RenderLines(lines, mode).segments| == |lines| - CountFences(lines)
    ensures RenderLines(lines, mode).mode ==
      if CountFences(lines) % 2 == 0 then mode else mode.Flip()
  {
    if lines != [] {
      if IsFence(lines[0]) {
        RenderCounts(lines[1..], mode.Flip());
        assert mode.Flip().Flip() == mode;
      } else {
        RenderCounts(lines[1..], mode);
      }
    }
  }

  /** Between fences the mode does not change: in a code block every line is
      copied verbatim, in prose every line is a heading or a paragraph. */
  lemma {:induction false} RenderFenceFree(lines: seq<string>, mode: Mode)
    requires forall i :: 0 <= i < |lines| ==> !IsFence(lines[i])
    ensures RenderLines(lines, mode).mode == mode
    ensures |RenderLines(lines, mode).segments| == |lines|
    ensures forall i :: 0 <= i < |lines| ==>
      RenderLines(lines, mode).segments[i] == LineSegment(lines[i], mode)
  {
    if lines != [] {
      RenderFenceFree(lines[1..], mode);
      var segments := RenderLines(lines, mode).segments;
      forall i | 1 <= i < |lines|
        ensures segments[i] == LineSegment(lines[i], mode)
      {
        assert segments[i] == RenderLines(lines[1..], mode).segments[i - 1];
      }
    }
  }

  /** A heading's text never contains `**` any more. */
  lemma {:induction false} StripBoldNoDoubleStar(s: string)
    ensures !Contains(StripBold(s), "**")
    decreases |s|
  {
    if |s| >= 2 && s[..2] == "**" {
      StripBoldNoDoubleStar(s[2..]);
    } else if s != [] {
      StripBoldNoDoubleStar(s[1..]);
      var tail := StripBold(s[1..]);
      if s[0] == '*' && |s| >= 2 {
        assert s[..2] == [s[0], s[1]];
        assert s[1..][0] == s[1];
        assert tail[0] == s[1];
      }
      ConsNoDoubleStar(s[0], tail);
    }
  }

  /** A character put in front of a text without `**` makes no `**`, unless
      both it and the text's first character are asterisks. */
  lemma ConsNoDoubleStar(c: char, tail: string)
    requires !Contains(tail, "**")
    requires c == '*' && tail != [] ==> tail[0] != '*'
    ensures !Contains([c] + tail, "**")
  {
    var r := [c] + tail;
    forall k | 0 <= k && k + 2 <= |r| ensures !OccursAt(r, "**", k) {
      if k > 0 {
        assert r[k..k + 2] == tail[k - 1..k + 1];
        assert !OccursAt(tail, "**", k - 1);
      } else {
        assert r[k..k + 2] == [c, tail[0]];
      }
    }
  }

  /** The characters other than `*`, in order. */
  function Unstarred(s: string): string
  {
    if s == [] then [] else (if s[0] == '*' then [] else [s[0]]) + Unstarred(s[1..])
  }

  /** Only asterisks are removed from a heading: the other characters are
      kept, in order. */
  lemma {:induction false} StripBoldKeepsText(s: string)
    ensures Unstarred(StripBold(s)) == Unstarred(s)
    decreases |s|
  {
    if |s| >= 2 && s[..2] == "**" {
      StripBoldKeepsText(s[2..]);
      assert s[0] == '*' && s[1] == '*' by { assert s[..2][0] == s[0] && s[..2][1] == s[1]; }
      UnstarredCons(s[0], s[1..]);
      UnstarredCons(s[1], s[2..]);
      assert s == [s[0]] + s[1..] && s[1..] == [s[1]] + s[2..];
    } else if s != [] {
      StripBoldKeepsText(s[1..]);
      UnstarredCons(s[0], StripBold(s[1..]));
      UnstarredCons(s[0], s[1..]);
      assert s == [s[0]] + s[1..];
    }
  }

  /** Unstarred, one character at the front. */
  lemma UnstarredCons(c: char, t: string)
    ensures Unstarred([c] + t) == (if c == '*' then [] else [c]) + Unstarred(t)
  {
    assert ([c] + t)[0] == c && ([c] + t)[1..] == t;
  }


  // How each line of the sample answer below is classified.

  lemma SampleFence()
    ensures IsFence("```")
  {
    assert TrimStart("```") == "```" && TrimEnd("```") == "```";
  }

  lemma SampleParagraphs()
    ensures !IsFence("more prose") && LineSegment("more prose", Prose) == Paragraph("more prose")
    ensures !IsFence("Answer") && LineSegment("Answer", Prose) == Paragraph("Answer")
  {
    assert "more prose"[..2] != "**" by { assert "more prose"[..2][0] == 'm'; }
    assert "Answer"[..2] != "**" by { assert "Answer"[..2][0] == 'A'; }
  }

  lemma SampleCodeLine()
    ensures !IsFence("code line")
  {
  }

  lemma SampleHeading()
    ensures !IsFence("**Q1**") && LineSegment("**Q1**", Prose) == Heading("Q1")
  {
    assert IsHeading("**Q1**") by {
      assert ClosesAt("**Q1**", 2, 4);
    }
    assert StripBold("**Q1**") == "Q1" by {
      assert StripBold("") == "";
      assert StripBold("**") == "";
      assert StripBold("1**") == "1";
      assert StripBold("Q1**") == "Q1";
    }
  }

  /** The code block of the sample answer and the prose after it. */
  lemma SampleCodeBlock()
    ensures RenderLines(["code line", "```", "more prose"], CodeBlock).segments
      == [Code("code line"), Paragraph("more prose")]
  {
    SampleFence();
    SampleParagraphs();
    SampleCodeLine();
    var l3 := ["code line", "```", "more prose"];
    var l4 := l3[1..];
    var l5 := l4[1..];
    assert l5 == ["more prose"];
    assert RenderLines(l5, Prose).segments == [Paragraph("more prose")] by {
      assert l5[0] == "more prose";
      assert RenderLines(l5[1..], Prose) == Pass([], Prose);
    }
    assert RenderLines(l4, CodeBlock) == RenderLines(l5, Prose) by { assert l4[0] == "```"; }
    assert l3[0] == "code line";
  }

  /** The rendering of a sample answer: "Answer", a fenced "code line",
      "more prose". */
  lemma SampleRendering()
    ensures RenderLines(["Answer", "```", "code line", "```", "more prose"], Prose).segments
      == [Paragraph("Answer"), Code("code line"), Paragraph("more prose")]
  {
    SampleFence();
    SampleParagraphs();
    SampleCodeBlock();
    var l1 := ["Answer", "```", "code line", "```", "more prose"];
    var l2 := l1[1..];
    assert l2[1..] == ["code line", "```", "more prose"];
    assert RenderLines(l2, Prose) == RenderLines(l2[1..], CodeBlock) by { assert l2[0] == "```"; }
    assert l1[0] == "Answer";
  }
}
