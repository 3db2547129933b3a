/** `cleanGeminiOutput` (backend/app.js:59-70): drop every line of the
    generated text that contains one of five filler phrases, in any letter
    case, join the remaining lines back together and trim the result. */
module Sanitizer {
  import opened Strings

  /** The filler phrases, in lower case, as the five case-insensitive
      regular expressions of the filter list them. */
  const FillerPhrases: seq<string> :=
    ["remember to", "you should", "compile", "enroll", "this comprehensive"]

  /** A line is filler when its lower-cased form contains one of the phrases. */
  predicate IsFiller(line: string)
  {
    exists i :: 0 <= i < |FillerPhrases| && Contains(Lower(line), FillerPhrases[i])
  }

  /** The `filter` step: the lines that are not filler, in their order. */
  function KeepLines(lines: seq<string>): seq<string>
  {
    if lines == [] then []
    else if IsFiller(lines[0]) then KeepLines(lines[1..])
    else [lines[0]] + KeepLines(lines[1..])
  }

  /** Every kept line is filler-free and comes from the input; every
      filler-free input line is kept. */
  lemma {:induction false} KeepLinesSpec(lines: seq<string>)
    ensures var kept := KeepLines(lines);
      |kept| <= |lines| &&
      (forall i :: 0 <= i < |kept| ==> !IsFiller(kept[i]) && kept[i] in lines) &&
      (forall i :: 0 <= i < |lines| && !IsFiller(lines[i]) ==> lines[i] in kept)
  {
    if lines != [] {
      KeepLinesSpec(lines[1..]);
      var kept := KeepLines(lines);
      var tail := KeepLines(lines[1..]);
      forall i | 0 <= i < |kept| ensures !IsFiller(kept[i]) && kept[i] in lines {
        if !IsFiller(lines[0]) && i > 0 {
          assert kept[i] == tail[i - 1];
        }
      }
      forall i | 1 <= i < |lines| && !IsFiller(lines[i]) ensures lines[i] in kept {
        assert lines[i] == lines[1..][i - 1];
      }
    }
  }

  /** `cleanGeminiOutput`. */
  function CleanOutput(raw: string): (clean: string)
    ensures clean != [] ==> !IsSpace(clean[0]) && !IsSpace(clean[|clean| - 1])
  {
    var joined := Join(KeepLines(Split(raw)));
    TrimSpec(joined);
    Trim(joined)
  }

  /** Filtering commutes with concatenation: kept lines stay in the order
      they had, and each line is judged on its own. */
  lemma {:induction false} KeepLinesAppend(a: seq<string>, b: seq<string>)
    ensures KeepLines(a + b) == KeepLines(a) + KeepLines(b)
  {
    if a == [] {
      assert a + b == b;
    } else {
      KeepLinesAppend(a[1..], b);
      assert (a + b)[0] == a[0] && (a + b)[1..] == a[1..] + b;
    }
  }

  /** A list of lines without filler passes through unchanged. */
  lemma {:induction false} KeepLinesNoFiller(lines: seq<string>)
    requires forall i :: 0 <= i < |lines| ==> !IsFiller(lines[i])
    ensures KeepLines(lines) == lines
  {
    if lines != [] {
      KeepLinesNoFiller(lines[1..]);
    }
  }

  /** A piece of a filler-free line is filler-free. */
  lemma FillerInSlice(line: string, i: nat, j: nat)
    requires i <= j <= |line|
    ensures IsFiller(line[i..j]) ==> IsFiller(line)
  {
    if IsFiller(line[i..j]) {
      FillerInSliceFound(line, i, j);
    }
  }

  lemma FillerInSliceFound(line: string, i: nat, j: nat)
    requires i <= j <= |line|
    requires IsFiller(line[i..j])
    ensures IsFiller(line)
  {
    var k :| 0 <= k < |FillerPhrases| && Contains(Lower(line[i..j]), FillerPhrases[k]);
    LowerSlice(line, i, j);
    ContainsInSlice(Lower(line), i, j, FillerPhrases[k]);
  }

  /** Every line of `text` is free of filler. */
  predicate NoFillerLines(text: string)
  {
    forall i :: 0 <= i < |Split(text)| ==> !IsFiller(Split(text)[i])
  }

  /** Dropping a leading whitespace character keeps the lines filler-free. */
  lemma NoFillerDropFirst(s: string)
    requires s != [] && NoFillerLines(s)
    ensures NoFillerLines(s[1..])
  {
    SplitUnfold(s[0], s[1..]);
    assert [s[0]] + s[1..] == s;
    var rest := Split(s[1..]);
    if s[0] != NewLine {
      var first := [s[0]] + rest[0];
      assert first[1..|first|] == rest[0];
      assert Split(s)[0] == first;
      FillerInSlice(first, 1, |first|);
      forall i | 1 <= i < |rest| ensures !IsFiller(rest[i]) {
        assert Split(s)[i] == rest[i];
      }
    } else {
      forall i | 0 <= i < |rest| ensures !IsFiller(rest[i]) {
        assert Split(s)[i + 1] == rest[i];
      }
    }
  }

  /** Dropping a trailing character keeps the lines filler-free. */
  lemma NoFillerDropLast(s: string)
    requires s != [] && NoFillerLines(s)
    ensures NoFillerLines(s[..|s| - 1])
  {
    var t := s[..|s| - 1];
    var c := s[|s| - 1];
    assert t + [c] == s;
    var lines := Split(t);
    var n := |lines|;
    if c == NewLine {
      SplitSnocNewLine(t);
      forall i | 0 <= i < n ensures !IsFiller(lines[i]) {
        assert Split(s)[i] == lines[i];
      }
    } else {
      SplitSnoc(t, c);
      forall i | 0 <= i < n ensures !IsFiller(lines[i]) {
        if i < n - 1 {
          assert Split(s)[i] == lines[i];
        } else {
          var last := lines[n - 1] + [c];
          assert Split(s)[n - 1] == last;
          assert last[0..|lines[n - 1]|] == lines[n - 1];
          FillerInSlice(last, 0, |lines[n - 1]|);
        }
      }
    }
  }

  lemma {:induction false} NoFillerTrimStart(s: string)
    requires NoFillerLines(s)
    ensures NoFillerLines(TrimStart(s))
    decreases |s|
  {
    if s != [] && IsSpace(s[0]) {
      NoFillerDropFirst(s);
      NoFillerTrimStart(s[1..]);
    }
  }

  lemma {:induction false} NoFillerTrimEnd(s: string)
    requires NoFillerLines(s)
    ensures NoFillerLines(TrimEnd(s))
    decreases |s|
  {
    if s != [] && IsSpace(s[|s| - 1]) {
      NoFillerDropLast(s);
      NoFillerTrimEnd(s[..|s| - 1]);
    }
  }

  /** No line of the cleaned text contains a filler phrase, in any case. */
  lemma CleanOutputHasNoFiller(raw: string)
    ensures NoFillerLines(CleanOutput(raw))
  {
    var kept := KeepLines(Split(raw));
    SplitNoNewLines(raw);
    KeepLinesSpec(Split(raw));
    var joined := Join(kept);
    if kept == [] {
      assert Split(joined) == [[]];
      forall i | 0 <= i < |FillerPhrases| ensures !Contains(Lower([]), FillerPhrases[i]) {
        assert |FillerPhrases[i]| > 0;
      }
    } else {
      assert NoNewLines(kept);
      SplitJoin(kept);
    }
    NoFillerTrimStart(joined);
    NoFillerTrimEnd(TrimStart(joined));
  }

  /** Cleaning an already cleaned text changes nothing. */
  lemma CleanOutputIdempotent(raw: string)
    ensures CleanOutput(CleanOutput(raw)) == CleanOutput(raw)
  {
    var clean := CleanOutput(raw);
    CleanOutputHasNoFiller(raw);
    KeepLinesNoFiller(Split(clean));
    JoinSplit(clean);
    TrimTrimmed(clean);
  }
}
