/** The JavaScript string built-ins the submission pipeline relies on, stated
    over `string` (a sequence of characters): ASCII `toLowerCase`, `includes`,
    `startsWith`, `split('\n')`, `join('\n')`, `trim`, and `length` in
    UTF-16 code units. */
module Strings {

  const NewLine: char := '\n'

  /** `toLowerCase` restricted to ASCII letters; every other character is kept. */
  function LowerChar(c: char): char
  {
    if 'A' <= c <= 'Z' then (c as int + 32) as char else c
  }

  /** `toLowerCase` on ASCII: the same length, no capital A-Z left, and
      every character that is not a capital kept in place. */
  function Lower(s: string): (r: string)
    ensures |r| == |s|
    ensures forall i :: 0 <= i < |r| ==> !('A' <= r[i] <= 'Z')
    ensures forall i :: 0 <= i < |s| && !('A' <= s[i] <= 'Z') ==> r[i] == s[i]
  {
    seq(|s|, i requires 0 <= i < |s| => LowerChar(s[i]))
  }

  /** Lower-casing a lower-cased text changes nothing. */
  lemma LowerIdempotent(s: string)
    ensures Lower(Lower(s)) == Lower(s)
  {
  }

  lemma LowerSlice(s: string, i: nat, j: nat)
    requires i <= j <= |s|
    ensures Lower(s[i..j]) == Lower(s)[i..j]
  {
  }

  /** `s.startsWith(p)`. */
  predicate StartsWith(s: string, p: string)
  {
    |p| <= |s| && s[..|p|] == p
  }

  /** `p` occurs in `s` at position `k`. */
  ghost predicate OccursAt(s: string, p: string, k: int)
  {
    0 <= k && k + |p| <= |s| && s[k..k + |p|] == p
  }

  /** `s.includes(p)`, as the scan the built-in performs: try every start
      position from the left. The result is true exactly when `p` occurs
      somewhere in `s`. */
  function Contains(s: string, p: string): (found: bool)
    ensures found <==> exists k :: OccursAt(s, p, k)
    decreases |s|
  {
    if StartsWith(s, p) then
      assert OccursAt(s, p, 0);
      true
    else if s == [] then
      assert |p| > 0;
      assert forall k :: !OccursAt(s, p, k);
      false
    else
      var tail := Contains(s[1..], p);
      assert forall k :: OccursAt(s[1..], p, k) <==> OccursAt(s, p, k + 1) by {
        forall k ensures OccursAt(s[1..], p, k) <==> OccursAt(s, p, k + 1) {
          if 0 <= k && k + 1 + |p| <= |s| {
            assert s[1..][k..k + |p|] == s[k + 1..k + 1 + |p|];
          }
        }
      }
      assert tail <==> exists k :: OccursAt(s, p, k) by {
        if exists k :: OccursAt(s, p, k) {
          var k :| OccursAt(s, p, k);
          assert k != 0;
          assert OccursAt(s[1..], p, k - 1);
        }
      }
      tail
  }

  /** Whatever occurs in a slice of `s` occurs in `s`. */
  lemma ContainsInSlice(s: string, i: nat, j: nat, p: string)
    requires i <= j <= |s|
    requires Contains(s[i..j], p)
    ensures Contains(s, p)
  {
    var k :| OccursAt(s[i..j], p, k);
    assert k + |p| <= j - i;
    forall m | 0 <= m < |p| ensures s[i + k..i + k + |p|][m] == p[m] {
      assert p[m] == s[i..j][k..k + |p|][m] == s[i..j][k + m];
    }
    assert OccursAt(s, p, i + k);
  }

  /** The pieces of `split('\n')`; there is always at least one. */
  function Split(s: string): (lines: seq<string>)
    ensures |lines| >= 1
    decreases |s|
  {
    if s == [] then [[]]
    else
      var rest := Split(s[1..]);
      if s[0] == NewLine then [[]] + rest
      else [[s[0]] + rest[0]] + rest[1..]
  }

  /** `join('\n')`; the empty list joins to the empty string. */
  function Join(lines: seq<string>): string
  {
    if |lines| == 0 then []
    else if |lines| == 1 then lines[0]
    else lines[0] + [NewLine] + Join(lines[1..])
  }

  predicate NoNewLines(lines: seq<string>)
  {
    forall i :: 0 <= i < |lines| ==> NewLine !in lines[i]
  }

  /** No piece of a split contains a line feed. */
  lemma {:induction false} SplitNoNewLines(s: string)
    ensures NoNewLines(Split(s))
    decreases |s|
  {
    if s != [] {
      SplitNoNewLines(s[1..]);
      var rest := Split(s[1..]);
      if s[0] != NewLine {
        assert NewLine !in [s[0]] + rest[0];
      }
    }
  }

  /** Joining the pieces of a split gives back the text. */
  lemma {:induction false} JoinSplit(s: string)
    ensures Join(Split(s)) == s
    decreases |s|
  {
    if s != [] {
      var rest := Split(s[1..]);
      JoinSplit(s[1..]);
      if s[0] == NewLine {
        assert Split(s) == [[]] + rest;
        if |rest| == 1 {
          assert Join(Split(s)) == [] + [NewLine] + rest[0];
        } else {
          assert Join(Split(s)) == [] + [NewLine] + Join(rest);
        }
      } else {
        assert Split(s) == [[s[0]] + rest[0]] + rest[1..];
        if |rest| == 1 {
          assert Join(Split(s)) == [s[0]] + rest[0];
        } else {
          assert Join(Split(s)) == [s[0]] + rest[0] + [NewLine] + Join(rest[1..]);
          assert Join(rest) == rest[0] + [NewLine] + Join(rest[1..]);
        }
      }
    }
  }

  /** Splitting a line-feed-free piece followed by a line feed and more text. */
  lemma {:induction false} SplitCons(a: string, b: string)
    requires NewLine !in a
    ensures Split(a + [NewLine] + b) == [a] + Split(b)
    ensures Split(a) == [a]
    decreases |a|
  {
    if a == [] {
      assert a + [NewLine] + b == [NewLine] + b;
      assert ([NewLine] + b)[1..] == b;
    } else {
      SplitCons(a[1..], b);
      assert (a + [NewLine] + b)[1..] == a[1..] + [NewLine] + b;
      assert a == [a[0]] + a[1..];
    }
  }

  /** Splitting a join of line-feed-free lines gives back the lines. */
  lemma {:induction false} SplitJoin(lines: seq<string>)
    requires |lines| >= 1 && NoNewLines(lines)
    ensures Split(Join(lines)) == lines
  {
    if |lines| == 1 {
      SplitCons(lines[0], []);
    } else {
      SplitJoin(lines[1..]);
      SplitCons(lines[0], Join(lines[1..]));
      assert lines == [lines[0]] + lines[1..];
    }
  }

  /** Appending a line feed to a text starts a new, empty last piece. */
  lemma {:induction false} SplitSnocNewLine(s: string)
    ensures Split(s + [NewLine]) == Split(s) + [[]]
    decreases |s|
  {
    if s == [] {
      assert s + [NewLine] == [NewLine];
      SplitOne(NewLine);
    } else {
      SplitSnocNewLine(s[1..]);
      assert (s + [NewLine])[1..] == s[1..] + [NewLine];
      var rest := Split(s[1..]);
      if s[0] != NewLine {
        assert Split(s + [NewLine]) == [[s[0]] + (rest + [[]])[0]] + (rest + [[]])[1..];
        assert (rest + [[]])[1..] == rest[1..] + [[]];
      }
    }
  }

  /** Appending any other character to a text extends its last piece. */
  lemma {:induction false} SplitSnoc(s: string, c: char)
    requires c != NewLine
    ensures var n := |Split(s)|;
      Split(s + [c]) == Split(s)[..n - 1] + [Split(s)[n - 1] + [c]]
    decreases |s|
  {
    if s == [] {
      assert s + [c] == [c];
      SplitOne(c);
    } else {
      SplitSnoc(s[1..], c);
      assert (s + [c])[1..] == s[1..] + [c];
      SplitSnocStep(s[0], s[1..], c);
      assert [s[0]] + s[1..] == s;
    }
  }

  /** The inductive step of SplitSnoc, for a text `x` followed by `t`. */
  lemma SplitSnocStep(x: char, t: string, c: char)
    requires var m := |Split(t)|;
      Split(t + [c]) == Split(t)[..m - 1] + [Split(t)[m - 1] + [c]]
    ensures var n := |Split([x] + t)|;
      Split([x] + t + [c]) == Split([x] + t)[..n - 1] + [Split([x] + t)[n - 1] + [c]]
  {
    var rest, rest' := Split(t), Split(t + [c]);
    SplitUnfold(x, t);
    SplitUnfold(x, t + [c]);
    assert [x] + t + [c] == [x] + (t + [c]);
    if x != NewLine {
      ExtendFirstPiece(x, rest, rest', c);
    } else {
      ExtendAfterEmpty(rest, rest', c);
    }
  }

  /** Sequence bookkeeping for SplitSnocStep: extending the last piece
      commutes with putting an empty piece in front. */
  lemma ExtendAfterEmpty(rest: seq<string>, rest': seq<string>, c: char)
    requires |rest| >= 1
    requires rest' == rest[..|rest| - 1] + [rest[|rest| - 1] + [c]]
    ensures var first := [[]] + rest;
      [[]] + rest' == first[..|first| - 1] + [first[|first| - 1] + [c]]
  {
    var first := [[]] + rest;
    assert first[..|first| - 1] == [[]] + rest[..|rest| - 1];
  }

  /** Sequence bookkeeping for SplitSnocStep: extending the last piece
      commutes with prefixing the first piece by `x`. */
  lemma ExtendFirstPiece(x: char, rest: seq<string>, rest': seq<string>, c: char)
    requires |rest| >= 1
    requires rest' == rest[..|rest| - 1] + [rest[|rest| - 1] + [c]]
    ensures var first := [[x] + rest[0]] + rest[1..];
      [[x] + rest'[0]] + rest'[1..] == first[..|first| - 1] + [first[|first| - 1] + [c]]
  {
    var m := |rest|;
    if m == 1 {
      assert [x] + (rest[0] + [c]) == [x] + rest[0] + [c];
    } else {
      assert rest'[0] == rest[0];
      assert rest'[1..] == rest[1..m - 1] + [rest[m - 1] + [c]];
    }
  }

  /** One step of Split on a text that starts with `x`. */
  lemma SplitUnfold(x: char, t: string)
    ensures Split([x] + t) == if x == NewLine then [[]] + Split(t)
                              else [[x] + Split(t)[0]] + Split(t)[1..]
  {
    assert ([x] + t)[1..] == t;
  }

  lemma SplitOne(c: char)
    ensures Split([c]) == if c == NewLine then [[], []] else [[c]]
  {
    var s: string := [c];
    assert s[1..] == [];
    var rest := Split(s[1..]);
    assert rest == [[]];
    if c == NewLine {
      assert Split(s) == [[]] + rest;
    } else {
      assert Split(s) == [[c] + rest[0]] + rest[1..];
      assert [c] + rest[0] == [c] && rest[1..] == [];
    }
  }

  /** The whitespace set of ECMAScript's `String.prototype.trim`: the
      WhiteSpace and LineTerminator code points. */
  predicate IsSpace(c: char)
  {
    if c as int < 0xA0 then
      c == ' ' || 0x09 <= c as int <= 0x0D
    else
      c as int == 0xA0 || c as int == 0x1680 || 0x2000 <= c as int <= 0x200A ||
      c as int == 0x2028 || c as int == 0x2029 || c as int == 0x202F ||
      c as int == 0x205F || c as int == 0x3000 || c as int == 0xFEFF
  }

  /** Drops the leading whitespace. */
  function TrimStart(s: string): string
    decreases |s|
  {
    if s != [] && IsSpace(s[0]) then TrimStart(s[1..]) else s
  }

  /** Drops the trailing whitespace. */
  function TrimEnd(s: string): string
    decreases |s|
  {
    if s != [] && IsSpace(s[|s| - 1]) then TrimEnd(s[..|s| - 1]) else s
  }

  /** `trim()`. */
  function Trim(s: string): string
  {
    TrimEnd(TrimStart(s))
  }

  /** TrimStart gives the longest suffix of `s` that does not start with
      whitespace. */
  lemma {:induction false} TrimStartSpec(s: string)
    ensures var r := TrimStart(s);
      |r| <= |s| && r == s[|s| - |r|..] &&
      (forall k :: 0 <= k < |s| - |r| ==> IsSpace(s[k])) &&
      (r != [] ==> !IsSpace(r[0]))
    decreases |s|
  {
    if s != [] && IsSpace(s[0]) {
      TrimStartSpec(s[1..]);
    }
  }

  /** TrimEnd gives the longest prefix of `s` that does not end with
      whitespace. */
  lemma {:induction false} TrimEndSpec(s: string)
    ensures var r := TrimEnd(s);
      |r| <= |s| && r == s[..|r|] &&
      (forall k :: |r| <= k < |s| ==> IsSpace(s[k])) &&
      (r != [] ==> !IsSpace(r[|r| - 1]))
    decreases |s|
  {
    if s != [] && IsSpace(s[|s| - 1]) {
      TrimEndSpec(s[..|s| - 1]);
    }
  }

  /** The trimmed text neither starts nor ends with whitespace, and is the
      slice of `s` from `i` between a run of leading and a run of trailing
      whitespace. */
  lemma TrimSpec(s: string)
    ensures var r, i := Trim(s), |s| - |TrimStart(s)|;
      (r != [] ==> !IsSpace(r[0]) && !IsSpace(r[|r| - 1])) &&
      0 <= i <= i + |r| <= |s| && r == s[i..i + |r|] &&
      (forall k :: 0 <= k < i ==> IsSpace(s[k])) &&
      (forall k :: i + |r| <= k < |s| ==> IsSpace(s[k]))
  {
    var t := TrimStart(s);
    TrimStartSpec(s);
    TrimEndSpec(t);
    var r := TrimEnd(t);
    var i := |s| - |t|;
    if r != [] {
      assert r[0] == t[0];
    }
    assert r == s[i..i + |r|];
    forall k | i + |r| <= k < |s| ensures IsSpace(s[k]) {
      assert s[k] == t[k - i];
    }
  }

  /** A text without leading or trailing whitespace is its own trim. */
  lemma TrimTrimmed(s: string)
    requires s != [] ==> !IsSpace(s[0]) && !IsSpace(s[|s| - 1])
    ensures Trim(s) == s
  {
  }

  /** Trimming twice is trimming once. */
  lemma TrimIdempotent(s: string)
    ensures Trim(Trim(s)) == Trim(s)
  {
    TrimSpec(s);
    TrimTrimmed(Trim(s));
  }

  /** The UTF-16 code units JavaScript stores for `c`: the character itself
      inside the Basic Multilingual Plane, a surrogate pair outside it. */
  function CodeUnits(c: char): seq<int>
  {
    var v := c as int;
    if v < 0x10000 then [v]
    else [0xD800 + (v - 0x10000) / 0x400, 0xDC00 + (v - 0x10000) % 0x400]
  }

  /** A JavaScript string as its sequence of UTF-16 code units. */
  function Utf16(s: string): seq<int>
  {
    if s == [] then [] else CodeUnits(s[0]) + Utf16(s[1..])
  }

  /** The length JavaScript reports for `s`: one per character of the Basic
      Multilingual Plane, two per character outside it. */
  function Utf16Length(s: string): nat
  {
    if s == [] then 0 else (if s[0] as int < 0x10000 then 1 else 2) + Utf16Length(s[1..])
  }

  /** The length counts the code units. */
  lemma {:induction false} Utf16LengthUnits(s: string)
    ensures |Utf16(s)| == Utf16Length(s)
    ensures Utf16Length(s) >= |s|
  {
    if s != [] {
      Utf16LengthUnits(s[1..]);
    }
  }

  /** Lengths add up over a concatenation. */
  lemma {:induction false} Utf16LengthAppend(a: string, b: string)
    ensures Utf16Length(a + b) == Utf16Length(a) + Utf16Length(b)
  {
    if a == [] {
      assert a + b == b;
    } else {
      Utf16LengthAppend(a[1..], b);
      assert (a + b)[0] == a[0] && (a + b)[1..] == a[1..] + b;
    }
  }

  /** Lower-casing keeps the JavaScript length: it only changes ASCII letters. */
  lemma {:induction false} Utf16LengthLower(s: string)
    ensures Utf16Length(Lower(s)) == Utf16Length(s)
  {
    if s != [] {
      Utf16LengthLower(s[1..]);
      assert Lower(s)[1..] == Lower(s[1..]);
    }
  }

  /** Outside the Basic Multilingual Plane every character counts twice. */
  lemma {:induction false} Utf16LengthOutsideBmp(s: string)
    requires forall i :: 0 <= i < |s| ==> s[i] as int >= 0x10000
    ensures Utf16Length(s) == 2 * |s|
  {
    if s != [] {
      Utf16LengthOutsideBmp(s[1..]);
    }
  }
}
