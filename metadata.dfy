/** The submission's identity fields and the name of its solution file
    (backend/app.js:75-77 and 109). */
module Metadata {
  import opened Options
  import opened Strings

  const Unknown: string := "Unknown"

  /** `field || 'Unknown'`: an absent or empty form field reads as "Unknown";
      any other value, blanks included, is kept as sent. */
  function OrUnknown(field: Option<string>): (v: string)
    ensures v != []
    ensures field.Some? && field.value != [] ==> v == field.value
    ensures field.None? || field.value == [] ==> v == Unknown
  {
    if field.Some? && field.value != [] then field.value else Unknown
  }

  /** The code units `[A-Za-z0-9_]` matches. */
  predicate IsWordUnit(u: int)
  {
    'a' as int <= u <= 'z' as int || 'A' as int <= u <= 'Z' as int ||
    '0' as int <= u <= '9' as int || u == '_' as int
  }

  /** The characters `[A-Za-z0-9_]` that the file name may keep. */
  predicate IsWordChar(c: char)
  {
    IsWordUnit(c as int)
  }

  /** `name.replace(/ /g, '_')`: the same length, no blank left, and every
      other character kept in place. */
  function SpacesToUnderscores(s: string): (r: string)
    ensures |r| == |s|
    ensures forall i :: 0 <= i < |r| ==> r[i] != ' '
    ensures forall i :: 0 <= i < |s| && s[i] != ' ' ==> r[i] == s[i]
  {
    seq(|s|, i requires 0 <= i < |s| => if s[i] == ' ' then '_' else s[i])
  }

  /** What the mask writes for one character. The regular expression has no
      `u` flag, so it tests each code unit: a word character is kept, any
      other character of the Basic Multilingual Plane becomes `_`, and a
      surrogate pair becomes `__`. */
  function MaskChar(c: char): string
  {
    if IsWordChar(c) then [c] else if c as int < 0x10000 then "_" else "__"
  }

  /** `.replace(/[^a-zA-Z0-9_]/g, '_')`: as many characters as the input has
      code units, all of them word characters. */
  function MaskNonWord(s: string): (r: string)
    ensures |r| == Utf16Length(s)
    ensures forall i :: 0 <= i < |r| ==> IsWordChar(r[i])
  {
    if s == [] then [] else MaskChar(s[0]) + MaskNonWord(s[1..])
  }

  /** One character masked is its code units masked one by one. */
  lemma MaskCharUnits(c: char)
    ensures |MaskChar(c)| == |CodeUnits(c)|
    ensures forall j :: 0 <= j < |CodeUnits(c)| ==>
      MaskChar(c)[j] as int == if IsWordUnit(CodeUnits(c)[j]) then CodeUnits(c)[j] else '_' as int
  {
  }

  /** The mask agrees with the regular expression's view of the string: the
      i-th character of the result is the i-th code unit of the input when
      that unit is in `[A-Za-z0-9_]`, and `_` otherwise. */
  lemma {:induction false} MaskNonWordUnits(s: string)
    ensures |MaskNonWord(s)| == |Utf16(s)|
    ensures forall i :: 0 <= i < |Utf16(s)| ==>
      MaskNonWord(s)[i] as int == if IsWordUnit(Utf16(s)[i]) then Utf16(s)[i] else '_' as int
  {
    Utf16LengthUnits(s);
    if s != [] {
      MaskNonWordUnits(s[1..]);
      MaskCharUnits(s[0]);
      var head, units := MaskChar(s[0]), CodeUnits(s[0]);
      var r, u := MaskNonWord(s), Utf16(s);
      forall i | 0 <= i < |u|
        ensures r[i] as int == if IsWordUnit(u[i]) then u[i] else '_' as int
      {
        if i < |units| {
          assert r[i] == head[i] && u[i] == units[i];
        } else {
          assert r[i] == MaskNonWord(s[1..])[i - |head|];
          assert u[i] == Utf16(s[1..])[i - |units|];
        }
      }
    }
  }

  /** Inside the Basic Multilingual Plane the mask works character by
      character, in place. */
  lemma {:induction false} MaskNonWordBmp(s: string)
    requires forall i :: 0 <= i < |s| ==> s[i] as int < 0x10000
    ensures |MaskNonWord(s)| == |s|
    ensures forall i :: 0 <= i < |s| ==> MaskNonWord(s)[i] == if IsWordChar(s[i]) then s[i] else '_'
  {
    if s != [] {
      MaskNonWordBmp(s[1..]);
      var r := MaskNonWord(s);
      forall i | 1 <= i < |s|
        ensures r[i] == if IsWordChar(s[i]) then s[i] else '_'
      {
        assert r[i] == MaskNonWord(s[1..])[i - 1] && s[i] == s[1..][i - 1];
      }
    }
  }

  /** The template string before masking. */
  function FilenameTemplate(enrollment: string, name: string, batch: string): string
  {
    enrollment + "_" + SpacesToUnderscores(name) + "_" + batch + ".pdf"
  }

  /** The solution file's name: the template with every code unit outside
      `[A-Za-z0-9_]` replaced by `_`, so that only word characters remain,
      the length is the template's length in JavaScript and the `.` of the
      extension has become `_`. */
  function OutputFilename(enrollment: string, name: string, batch: string): (f: string)
    ensures forall i :: 0 <= i < |f| ==> IsWordChar(f[i])
    ensures |f| == Utf16Length(FilenameTemplate(enrollment, name, batch))
    ensures |f| >= 4 && f[|f| - 4..] == "_pdf"
  {
    var stem := enrollment + "_" + SpacesToUnderscores(name) + "_" + batch;
    MaskAppend(stem, ".pdf");
    assert MaskNonWord(".pdf") == "_pdf";
    MaskNonWord(FilenameTemplate(enrollment, name, batch))
  }

  /** The file name is the three masked fields joined by `_`, then `_pdf`. */
  lemma OutputFilenameFields(enrollment: string, name: string, batch: string)
    ensures OutputFilename(enrollment, name, batch) ==
      MaskNonWord(enrollment) + "_" + MaskNonWord(name) + "_" + MaskNonWord(batch) + "_pdf"
  {
    var spaced := SpacesToUnderscores(name);
    MaskAppend(enrollment + "_" + spaced + "_" + batch, ".pdf");
    assert MaskNonWord(".pdf") == "_pdf";
    MaskJoin(enrollment + "_" + spaced, batch);
    MaskJoin(enrollment, spaced);
    MaskSpaces(name);
  }

  /** Masking two pieces joined by `_`. */
  lemma MaskJoin(x: string, y: string)
    ensures MaskNonWord(x + "_" + y) == MaskNonWord(x) + "_" + MaskNonWord(y)
  {
    MaskAppend(x + "_", y);
    MaskAppend(x, "_");
    assert MaskNonWord("_") == "_";
  }

  /** Masking works on each character independently. */
  lemma {:induction false} MaskAppend(a: string, b: string)
    ensures MaskNonWord(a + b) == MaskNonWord(a) + MaskNonWord(b)
  {
    if a == [] {
      assert a + b == b;
    } else {
      assert (a + b)[0] == a[0] && (a + b)[1..] == a[1..] + b;
      calc {
        MaskNonWord(a + b);
        MaskChar(a[0]) + MaskNonWord(a[1..] + b);
        { MaskAppend(a[1..], b); }
        MaskChar(a[0]) + (MaskNonWord(a[1..]) + MaskNonWord(b));
        MaskNonWord(a) + MaskNonWord(b);
      }
    }
  }

  /** The space replacement is subsumed by the mask: a blank becomes `_`
      either way. */
  lemma {:induction false} MaskSpaces(name: string)
    ensures MaskNonWord(SpacesToUnderscores(name)) == MaskNonWord(name)
  {
    if name != [] {
      var spaced := SpacesToUnderscores(name);
      MaskSpaces(name[1..]);
      assert spaced[1..] == SpacesToUnderscores(name[1..]);
      assert MaskChar(spaced[0]) == MaskChar(name[0]);
    }
  }

  /** Masking one character ahead of the rest. */
  lemma MaskCons(c: char, s: string)
    ensures MaskNonWord([c] + s) == MaskChar(c) + MaskNonWord(s)
  {
    assert ([c] + s)[0] == c && ([c] + s)[1..] == s;
  }

  lemma MaskSampleFields()
    ensures MaskNonWord("1!") == "1_"
    ensures MaskNonWord("A B") == "A_B"
    ensures MaskNonWord("X") == "X"
  {
    MaskCons('!', []);
    MaskCons('1', "!");
    MaskCons('B', []);
    MaskCons(' ', "B");
    MaskCons('A', " B");
    MaskCons('X', []);
  }

  /** The name `1__A_B_X_pdf` for enrollment "1!", name "A B" and batch
      "X". */
  lemma ExampleFilename()
    ensures OutputFilename("1!", "A B", "X") == "1__A_B_X_pdf"
  {
    calc {
      OutputFilename("1!", "A B", "X");
      { OutputFilenameFields("1!", "A B", "X"); }
      MaskNonWord("1!") + "_" + MaskNonWord("A B") + "_" + MaskNonWord("X") + "_pdf";
      { MaskSampleFields(); }
      "1_" + "_" + "A_B" + "_" + "X" + "_pdf";
    }
  }

  /** A character outside the Basic Multilingual Plane is two code units
      and so leaves two underscores. */
  lemma ExampleEmojiFilename()
    ensures OutputFilename("1", "\U{1F600}", "X") == "1____X_pdf"
  {
    calc {
      OutputFilename("1", "\U{1F600}", "X");
      { OutputFilenameFields("1", "\U{1F600}", "X"); }
      MaskNonWord("1") + "_" + MaskNonWord("\U{1F600}") + "_" + MaskNonWord("X") + "_pdf";
      { MaskSampleEmoji(); }
      "1" + "_" + "__" + "_" + "X" + "_pdf";
    }
  }

  lemma MaskSampleEmoji()
    ensures MaskNonWord("\U{1F600}") == "__"
    ensures MaskNonWord("1") == "1" && MaskNonWord("X") == "X"
  {
    MaskCons('\U{1F600}', []);
    MaskCons('1', []);
    MaskCons('X', []);
  }

  /** Different submissions can be given the same file name, so a later
      solution overwrites an earlier one's file. */
  lemma FilenameCollision()
    ensures OutputFilename("1", "A B", "X") == OutputFilename("1", "A_B", "X")
  {
    OutputFilenameFields("1", "A B", "X");
    OutputFilenameFields("1", "A_B", "X");
    assert MaskNonWord("A B") == MaskNonWord("A_B");
  }
}
