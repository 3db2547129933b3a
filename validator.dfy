/** The two checks the upload handler applies to the extracted text before
    any call to the generation service (backend/app.js:87-93). */
module Validator {
  import opened Strings

  /** Texts longer than this, in JavaScript's length (UTF-16 code units),
      are refused. */
  const MaxTextLength: nat := 5000

  datatype Verdict = Accepted | NotAssignmentLike | TooLarge
  {
    /** The body of the 400 response the handler sends for a refusal. */
    function Message(): string
      requires this != Accepted
    {
      if this == NotAssignmentLike then "Not a valid assignment or lab PDF."
      else "PDF is too large."
    }
  }

  /** The keyword test, as the handler writes it: the lower-cased text
      includes "assignment" or "lab". */
  predicate MentionsAssignment(text: string)
  {
    Contains(Lower(text), "assignment") || Contains(Lower(text), "lab")
  }

  /** The ordered validation: the keyword test first, then the size test. */
  function Validate(text: string): (v: Verdict)
    ensures v == NotAssignmentLike <==>
      forall k :: !OccursAt(Lower(text), "assignment", k) && !OccursAt(Lower(text), "lab", k)
    ensures v == TooLarge <==> MentionsAssignment(text) && Utf16Length(text) > MaxTextLength
    ensures v == Accepted <==> MentionsAssignment(text) && Utf16Length(text) <= MaxTextLength
  {
    if !MentionsAssignment(text) then NotAssignmentLike
    else if Utf16Length(text) > MaxTextLength then TooLarge
    else Accepted
  }

  /** The keyword rule takes precedence: a text that fails both checks is
      reported as not assignment-like, never as too large. */
  lemma KeywordRuleFirst(text: string)
    requires !MentionsAssignment(text) && Utf16Length(text) > MaxTextLength
    ensures Validate(text) == NotAssignmentLike
  {
  }

  /** Only letter case is looked at: two texts that agree after lower-casing
      get the same verdict. */
  lemma {:induction false} CaseInsensitive(a: string, b: string)
    requires Lower(a) == Lower(b)
    ensures Validate(a) == Validate(b)
  {
    Utf16LengthLower(a);
    Utf16LengthLower(b);
  }

  /** A text mentioning "Lab" in any letter case, within the size limit,
      is accepted. */
  lemma {:induction false} LabWithinLimitAccepted(before: string, after: string)
    requires Utf16Length(before) + 3 + Utf16Length(after) <= MaxTextLength
    ensures Validate(before + "LaB" + after) == Accepted
  {
    var text := before + "LaB" + after;
    Utf16LengthAppend(before + "LaB", after);
    Utf16LengthAppend(before, "LaB");
    assert Utf16Length("LaB") == 3;
    assert Lower(text)[|before|..|before| + 3] == "lab";
    assert OccursAt(Lower(text), "lab", |before|);
  }

  /** The limit is on JavaScript's length: "lab" followed by 2500 characters
      outside the Basic Multilingual Plane is 5003 code units long and is
      refused, though it has only 2503 characters. */
  lemma OutsideBmpCountsTwice(wide: string)
    requires |wide| == 2500 && forall i :: 0 <= i < |wide| ==> wide[i] as int >= 0x10000
    ensures Validate("lab" + wide) == TooLarge
  {
    Utf16LengthOutsideBmp(wide);
    Utf16LengthAppend("lab", wide);
    assert Utf16Length("lab") == 3;
    assert Lower("lab" + wide)[0..3] == "lab";
    assert OccursAt(Lower("lab" + wide), "lab", 0);
  }
}
