/** ASCII case and substrings, as Rust's string methods define them. */
module AsciiText {
  function UpperChar(c: char): char {
    if 'a' <= c <= 'z' then c - 'a' + 'A' else c
  }

  function LowerChar(c: char): char {
    if 'A' <= c <= 'Z' then c - 'A' + 'a' else c
  }

  function Upper(s: string): (r: string)
    ensures |r| == |s|
  {
    if s == "" then "" else [UpperChar(s[0])] + Upper(s[1..])
  }

  function Lower(s: string): (r: string)
    ensures |r| == |s|
  {
    if s == "" then "" else [LowerChar(s[0])] + Lower(s[1..])
  }

  function DashToUnderscore(s: string): (r: string)
    ensures |r| == |s|
  {
    if s == "" then "" else [if s[0] == '-' then '_' else s[0]] + DashToUnderscore(s[1..])
  }

  predicate SameButCase(a: string, b: string) {
    Upper(a) == Upper(b)
  }

  lemma {:induction false} UpperAlready(s: string)
    requires forall i :: 0 <= i < |s| ==> !('a' <= s[i] <= 'z')
    ensures Upper(s) == s
  {
    if s != "" {
      UpperAlready(s[1..]);
    }
  }

  /** Letters change case by 32, back and forth, and nothing else changes. */
  lemma CaseOfChar(c: char)
    ensures 'a' <= c <= 'z' ==> UpperChar(c) as int == c as int - 32 && LowerChar(UpperChar(c)) == c
    ensures 'A' <= c <= 'Z' ==> LowerChar(c) as int == c as int + 32 && UpperChar(LowerChar(c)) == c
    ensures !('a' <= c <= 'z') ==> UpperChar(c) == c
    ensures !('A' <= c <= 'Z') ==> LowerChar(c) == c
  {
  }

  lemma {:induction false} CharsOfText(s: string, i: nat)
    requires i < |s|
    ensures Upper(s)[i] == UpperChar(s[i]) && Lower(s)[i] == LowerChar(s[i])
    ensures DashToUnderscore(s)[i] == if s[i] == '-' then '_' else s[i]
  {
    if i > 0 {
      CharsOfText(s[1..], i - 1);
    }
  }

  /** Texts are the same but for case exactly when they are so letter by letter. */
  lemma SameButCaseIff(a: string, b: string)
    ensures SameButCase(a, b)
            <==> |a| == |b| && forall i :: 0 <= i < |a| ==> a[i] == b[i] || LowerChar(a[i]) == LowerChar(b[i])
  {
    if |a| == |b| {
      forall i | 0 <= i < |a|
        ensures Upper(a)[i] == Upper(b)[i] <==> a[i] == b[i] || LowerChar(a[i]) == LowerChar(b[i])
      {
        CharsOfText(a, i);
        CharsOfText(b, i);
      }
      if forall i :: 0 <= i < |a| ==> a[i] == b[i] || LowerChar(a[i]) == LowerChar(b[i]) {
        assert forall i :: 0 <= i < |a| ==> Upper(a)[i] == Upper(b)[i];
      }
    }
  }

  /** The pattern occurs in s. */
  predicate Contains(s: string, pattern: string) {
    exists i :: 0 <= i <= |s| && OccursAt(s, pattern, i)
  }

  predicate OccursAt(s: string, pattern: string, i: int) {
    0 <= i && i + |pattern| <= |s| && s[i..i + |pattern|] == pattern
  }

  lemma CharOfOccurrence(s: string, pattern: string, i: int, k: nat)
    requires OccursAt(s, pattern, i) && k < |pattern|
    ensures s[i + k] == pattern[k]
  {
    assert s[i..i + |pattern|][k] == s[i + k];
  }

  /** A pattern with a character that is not in s does not occur in s. */
  lemma LacksChar(s: string, pattern: string, k: nat)
    requires k < |pattern| && pattern[k] !in s
    ensures !Contains(s, pattern)
  {
    forall i | OccursAt(s, pattern, i) ensures false {
      CharOfOccurrence(s, pattern, i, k);
    }
  }

  /** A pattern without the separator lies on one side of it. */
  lemma ContainsAcross(a: string, separator: char, b: string, pattern: string)
    requires separator !in pattern && pattern != ""
    ensures Contains(a + [separator] + b, pattern) <==> Contains(a, pattern) || Contains(b, pattern)
  {
    var s := a + [separator] + b;
    forall i | OccursAt(s, pattern, i) ensures Contains(a, pattern) || Contains(b, pattern) {
      OccursOnOneSide(a, separator, b, pattern, i);
    }
    forall i | OccursAt(a, pattern, i) ensures OccursAt(s, pattern, i) {
      assert s[i..i + |pattern|] == a[i..i + |pattern|];
    }
    forall i | OccursAt(b, pattern, i) ensures OccursAt(s, pattern, |a| + 1 + i) {
      assert s[|a| + 1 + i..|a| + 1 + i + |pattern|] == b[i..i + |pattern|];
    }
  }

  lemma OccursOnOneSide(a: string, separator: char, b: string, pattern: string, i: int)
    requires separator !in pattern && pattern != "" && OccursAt(a + [separator] + b, pattern, i)
    ensures OccursAt(a, pattern, i) || OccursAt(b, pattern, i - |a| - 1)
  {
    var s := a + [separator] + b;
    if i <= |a| < i + |pattern| {
      CharOfOccurrence(s, pattern, i, |a| - i);
    } else if i + |pattern| <= |a| {
      assert s[i..i + |pattern|] == a[i..i + |pattern|];
    } else {
      assert s[i..i + |pattern|] == b[i - |a| - 1..i - |a| - 1 + |pattern|];
    }
  }
}
