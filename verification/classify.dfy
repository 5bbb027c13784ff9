/**
 `Context.classify_string`: the role name rewritten by
 `gsub(/(?:^|_)([a-z])/) { $1.upcase }`, turning `source_account` into
 `SourceAccount`. Ruby's `^` anchors at the start of the string and just
 after every newline, and `[a-z]` is ASCII only.
 */
module Classify {

  predicate IsLower(c: char) {
    'a' <= c <= 'z'
  }

  predicate IsUpper(c: char) {
    'A' <= c <= 'Z'
  }

  /** `String#upcase` on one ASCII lower-case letter. */
  function Upcase(c: char): (u: char)
    requires IsLower(c)
    ensures IsUpper(u)
    ensures u as int - 'A' as int == c as int - 'a' as int
  {
    (c as int - 32) as char
  }

  /** Where Ruby's `^` matches: the start of the string or just after a newline. */
  predicate LineStart(s: string, i: nat)
    requires i <= |s|
  {
    i == 0 || s[i - 1] == '\n'
  }

  /**
   Whether `s[i..i + k]` is a match of `(?:^|_)([a-z])`: the `^` alternative
   takes no character and needs a line start, the `_` alternative takes one
   underscore, and either is followed by the captured lower-case letter.
   */
  predicate Matches(s: string, i: nat, k: nat) {
    && (k == 1 || k == 2)
    && i + k <= |s|
    && IsLower(s[i + k - 1])
    && (k == 1 ==> LineStart(s, i))
    && (k == 2 ==> s[i] == '_')
  }

  /**
   The length of the match of `(?:^|_)([a-z])` that starts at `i`, or 0
   when there is none. The first alternative is tried first; the two can
   never both match, so the length is the one match there is.
   */
  function MatchAt(s: string, i: nat): (n: nat)
    requires i <= |s|
    ensures n <= 2 && i + n <= |s|
    ensures n == 0 <==> !Matches(s, i, 1) && !Matches(s, i, 2)
    ensures n > 0 ==> Matches(s, i, n)
  {
    if i < |s| && LineStart(s, i) && IsLower(s[i]) then 1
    else if i + 1 < |s| && s[i] == '_' && IsLower(s[i + 1]) then 2
    else 0
  }

  /**
   `gsub` from position `i`: at each position either the pattern matches,
   and the match is replaced by its upcased capture and the scan resumes
   after it, or the character is copied and the scan moves on by one.
   */
  function Scan(s: string, i: nat): (r: string)
    requires i <= |s|
    ensures |r| <= |s| - i
    decreases |s| - i
  {
    if i == |s| then []
    else
      var n := MatchAt(s, i);
      if n == 0 then [s[i]] + Scan(s, i + 1)
      else [Upcase(s[i + n - 1])] + Scan(s, i + n)
  }

  function ClassifyString(s: string): (r: string)
    ensures |r| <= |s|
  {
    Scan(s, 0)
  }

  /** The pattern matches nowhere in `s`. */
  predicate NoMatch(s: string) {
    forall i :: 0 <= i <= |s| ==> MatchAt(s, i) == 0
  }

  // ---------------------------------------------------------------------
  // A position-by-position description of the rewrite, independent of the
  // left-to-right scan.

  /** An underscore that the rewrite removes: one directly before a lower-case letter. */
  predicate Dropped(s: string, i: nat)
    requires i < |s|
  {
    s[i] == '_' && i + 1 < |s| && IsLower(s[i + 1])
  }

  /** A letter that the rewrite upcases: at a line start or after an underscore. */
  predicate Raised(s: string, i: nat)
    requires i < |s|
  {
    IsLower(s[i]) && (i == 0 || s[i - 1] == '\n' || s[i - 1] == '_')
  }

  /** What position `i` of the input becomes in the output. */
  function Image(s: string, i: nat): string
    requires i < |s|
  {
    if Dropped(s, i) then []
    else if Raised(s, i) then [Upcase(s[i])]
    else [s[i]]
  }

  function Pointwise(s: string, i: nat): string
    requires i <= |s|
    decreases |s| - i
  {
    if i == |s| then [] else Image(s, i) + Pointwise(s, i + 1)
  }

  /** The number of underscores from position `i` on that the rewrite removes. */
  function DroppedFrom(s: string, i: nat): nat
    requires i <= |s|
    decreases |s| - i
  {
    if i == |s| then 0
    else (if Dropped(s, i) then 1 else 0) + DroppedFrom(s, i + 1)
  }

  /**
   The scan only ever resumes at positions that are not a lower-case letter
   right after an underscore: such a letter is always consumed together with
   its underscore.
   */
  predicate Resumable(s: string, i: nat)
    requires i <= |s|
  {
    i == 0 || i == |s| || !(s[i - 1] == '_' && IsLower(s[i]))
  }

  lemma {:induction false} ScanIsPointwise(s: string, i: nat)
    requires i <= |s| && Resumable(s, i)
    ensures Scan(s, i) == Pointwise(s, i)
    decreases |s| - i
  {
    if i < |s| {
      var n := MatchAt(s, i);
      if n == 0 {
        ImageOfCopied(s, i);
        ScanIsPointwise(s, i + 1);
        StepAgrees(s, i, s[i]);
      } else if n == 1 {
        ImageOfRaised(s, i);
        ScanIsPointwise(s, i + 1);
        StepAgrees(s, i, Upcase(s[i]));
      } else {
        PairImage(s, i);
        ScanIsPointwise(s, i + 2);
        PairAgrees(s, i);
      }
    }
  }

  /** If the scan and the rewrite agree after a one-character step, they agree before it. */
  lemma StepAgrees(s: string, i: nat, c: char)
    requires i < |s| && MatchAt(s, i) < 2
    requires Image(s, i) == [c]
    requires c == (if MatchAt(s, i) == 0 then s[i] else Upcase(s[i]))
    requires Scan(s, i + 1) == Pointwise(s, i + 1)
    ensures Scan(s, i) == Pointwise(s, i)
  {
    ScanStep(s, i);
    PointwiseStep(s, i);
    calc {
      Scan(s, i);
      [c] + Scan(s, i + 1);
      Image(s, i) + Pointwise(s, i + 1);
    }
  }

  /** If the scan and the rewrite agree after an underscore-letter match, they agree before it. */
  lemma PairAgrees(s: string, i: nat)
    requires i + 1 < |s| && MatchAt(s, i) == 2
    requires Image(s, i) == [] && Image(s, i + 1) == [Upcase(s[i + 1])]
    requires Scan(s, i + 2) == Pointwise(s, i + 2)
    ensures Scan(s, i) == Pointwise(s, i)
  {
    ScanStep(s, i);
    PointwiseStep(s, i);
    PointwiseStep(s, i + 1);
  }

  /** One step of the scan at a position inside the string. */
  lemma ScanStep(s: string, i: nat)
    requires i < |s|
    ensures MatchAt(s, i) == 0 ==> Scan(s, i) == [s[i]] + Scan(s, i + 1)
    ensures MatchAt(s, i) > 0 ==>
              Scan(s, i) == [Upcase(s[i + MatchAt(s, i) - 1])] + Scan(s, i + MatchAt(s, i))
  {
  }

  /** One step of the position-wise rewrite. */
  lemma PointwiseStep(s: string, i: nat)
    requires i < |s|
    ensures Pointwise(s, i) == Image(s, i) + Pointwise(s, i + 1)
  {
  }

  /** A one-letter match at a line start: the letter is upcased in place. */
  lemma ImageOfRaised(s: string, i: nat)
    requires i < |s| && MatchAt(s, i) == 1
    ensures Image(s, i) == [Upcase(s[i])]
    ensures Resumable(s, i + 1)
  {
  }

  /** A position where the scan finds no match is copied unchanged. */
  lemma ImageOfCopied(s: string, i: nat)
    requires i < |s| && Resumable(s, i) && MatchAt(s, i) == 0
    ensures Image(s, i) == [s[i]]
    ensures Resumable(s, i + 1)
  {
  }

  /** An underscore-letter match: the underscore vanishes and the letter is upcased. */
  lemma PairImage(s: string, i: nat)
    requires i < |s| && MatchAt(s, i) == 2
    ensures Image(s, i) == []
    ensures Image(s, i + 1) == [Upcase(s[i + 1])]
    ensures Resumable(s, i + 2)
  {
  }

  /**
   The rewrite is exactly the position-wise one: every underscore before a
   lower-case letter is removed, every lower-case letter at a line start or
   after an underscore is upcased, and every other character is kept, in order.
   */
  lemma ClassifyIsPointwise(s: string)
    ensures ClassifyString(s) == Pointwise(s, 0)
  {
    ScanIsPointwise(s, 0);
  }

  lemma {:induction false} PointwiseLength(s: string, i: nat)
    requires i <= |s|
    ensures |Pointwise(s, i)| == |s| - i - DroppedFrom(s, i)
    decreases |s| - i
  {
    if i < |s| {
      PointwiseLength(s, i + 1);
    }
  }

  /** The output is shorter than the input by exactly the removed underscores. */
  lemma ClassifyLength(s: string)
    ensures |ClassifyString(s)| == |s| - DroppedFrom(s, 0)
  {
    ClassifyIsPointwise(s);
    PointwiseLength(s, 0);
  }

  /** Inside `r`, no lower-case letter follows a newline or an underscore. */
  predicate SettledInside(r: string) {
    forall j :: 0 < j < |r| ==> !(IsLower(r[j]) && (r[j - 1] == '\n' || r[j - 1] == '_'))
  }

  lemma {:induction false} ScanSettled(s: string, i: nat)
    requires i <= |s| && Resumable(s, i)
    ensures SettledInside(Scan(s, i))
    ensures |Scan(s, i)| > 0 && IsLower(Scan(s, i)[0]) ==>
              i > 0 && s[i - 1] != '\n' && s[i - 1] != '_'
    decreases |s| - i
  {
    if i < |s| {
      var n := MatchAt(s, i);
      var r := Scan(s, i);
      if n == 0 {
        ScanSettled(s, i + 1);
        var t := Scan(s, i + 1);
        assert r == [s[i]] + t;
        forall j | 0 < j < |r|
          ensures !(IsLower(r[j]) && (r[j - 1] == '\n' || r[j - 1] == '_'))
        {
          if j > 1 {
            assert r[j] == t[j - 1] && r[j - 1] == t[j - 2];
          }
        }
      } else {
        ScanSettled(s, i + n);
        var t := Scan(s, i + n);
        assert r == [Upcase(s[i + n - 1])] + t;
        forall j | 0 < j < |r|
          ensures !(IsLower(r[j]) && (r[j - 1] == '\n' || r[j - 1] == '_'))
        {
          if j > 1 {
            assert r[j] == t[j - 1] && r[j - 1] == t[j - 2];
          }
        }
      }
    }
  }

  /**
   The output contains no further match: it does not start with a lower-case
   letter, and no lower-case letter follows an underscore or a newline.
   */
  lemma ClassifySettled(s: string)
    ensures NoMatch(ClassifyString(s))
  {
    var r := ClassifyString(s);
    ScanSettled(s, 0);
    forall i | 0 <= i <= |r|
      ensures MatchAt(r, i) == 0
    {
      if 0 < i < |r| {
        assert !(IsLower(r[i]) && (r[i - 1] == '\n' || r[i - 1] == '_'));
      }
      if i + 1 < |r| {
        assert !(IsLower(r[i + 1]) && (r[i] == '\n' || r[i] == '_'));
      }
    }
  }

  lemma {:induction false} ScanOfNoMatch(s: string, i: nat)
    requires i <= |s| && NoMatch(s)
    ensures Scan(s, i) == s[i..]
    decreases |s| - i
  {
    if i < |s| {
      assert MatchAt(s, i) == 0;
      ScanOfNoMatch(s, i + 1);
      assert s[i..] == [s[i]] + s[i + 1..];
    }
  }

  /** A string the pattern does not match is left as it is. */
  lemma ClassifyFixesNoMatch(s: string)
    requires NoMatch(s)
    ensures ClassifyString(s) == s
  {
    ScanOfNoMatch(s, 0);
  }

  /** A character of an ordinary snake_case Ruby identifier. */
  predicate SnakeChar(c: char) {
    IsLower(c) || '0' <= c <= '9' || c == '_'
  }

  /** An ordinary snake_case name: a lower-case letter, then lower-case letters, digits and underscores. */
  predicate SnakeCase(s: string) {
    |s| > 0 && IsLower(s[0]) && forall i :: 0 <= i < |s| ==> SnakeChar(s[i])
  }

  predicate WordChar(c: char) {
    IsLower(c) || IsUpper(c) || '0' <= c <= '9' || c == '_'
  }

  lemma {:induction false} PointwiseWordChars(s: string, i: nat)
    requires i <= |s|
    requires forall k :: 0 <= k < |s| ==> SnakeChar(s[k])
    ensures forall j :: 0 <= j < |Pointwise(s, i)| ==> WordChar(Pointwise(s, i)[j])
    decreases |s| - i
  {
    if i < |s| {
      PointwiseWordChars(s, i + 1);
      var r := Pointwise(s, i);
      assert r == Image(s, i) + Pointwise(s, i + 1);
      forall j | 0 <= j < |r| ensures WordChar(r[j]) {
        if j >= |Image(s, i)| {
          assert r[j] == Pointwise(s, i + 1)[j - |Image(s, i)|];
        }
      }
    }
  }

  /**
   A snake_case role name classifies to a name that starts with an upper-case
   letter and contains only letters, digits and underscores.
   */
  lemma ClassifySnakeCase(s: string)
    requires SnakeCase(s)
    ensures var r := ClassifyString(s);
            |r| > 0 && IsUpper(r[0]) && forall j :: 0 <= j < |r| ==> WordChar(r[j])
  {
    ClassifyIsPointwise(s);
    PointwiseWordChars(s, 0);
    assert Image(s, 0) == [Upcase(s[0])];
    assert Pointwise(s, 0) == Image(s, 0) + Pointwise(s, 1);
  }

  /** Classifying twice is the same as classifying once. */
  lemma ClassifyIdempotent(s: string)
    ensures ClassifyString(ClassifyString(s)) == ClassifyString(s)
  {
    ClassifySettled(s);
    ClassifyFixesNoMatch(ClassifyString(s));
  }
}
