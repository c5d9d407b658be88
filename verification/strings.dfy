/** Searching in C strings and `std::string`s. Characters are bytes. */
module Strings {

  const NUL: char := '\0'
  const LF: char := '\n'
  const CR: char := '\r'

  /** `isspace` in the C locale. */
  predicate IsWhiteSpace(c: char) {
    c == ' ' || '\t' <= c <= '\r'
  }

  /** Space, tab, line feed, vertical tab, form feed and carriage return. */
  predicate IsGap(s: string) {
    forall c :: c in s ==> c as int == 32 || c as int == 9 || c as int == 10 || c as int == 11 || c as int == 12
                           || c as int == 13
  }

  /** The index of c in s from k on, or |s|. */
  function IndexOf(s: string, k: nat, c: char): (i: nat)
    requires k <= |s|
    ensures k <= i <= |s|
    ensures i < |s| ==> s[i] == c
    ensures c !in s[k..i]
    decreases |s| - k
  {
    if k == |s| || s[k] == c then k else
      var i := IndexOf(s, k + 1, c);
      assert s[k..i] == [s[k]] + s[k + 1..i];
      i
  }

  lemma {:induction false} FirstIndex(s: string, k: nat, i: nat, c: char)
    requires k <= i < |s| && s[i] == c && c !in s[k..i]
    ensures IndexOf(s, k, c) == i
    decreases i - k
  {
    if k < i {
      assert s[k] == s[k..i][0];
      assert s[k..i][1..] == s[k + 1..i];
      FirstIndex(s, k + 1, i, c);
    }
  }

  lemma {:induction false} NoIndex(s: string, k: nat, c: char)
    requires k <= |s| && c !in s[k..]
    ensures IndexOf(s, k, c) == |s|
    decreases |s| - k
  {
    if k < |s| {
      assert s[k] == s[k..][0];
      assert s[k..][1..] == s[k + 1..];
      NoIndex(s, k + 1, c);
    }
  }

  /** The index of the first occurrence of tag from k on, or |s|. */
  function FindTag(s: string, tag: string, k: nat): (i: nat)
    requires k <= |s|
    ensures k <= i <= |s|
    ensures i < |s| ==> i + |tag| <= |s| && tag <= s[i..]
    decreases |s| - k
  {
    if k == |s| || tag <= s[k..] then k else FindTag(s, tag, k + 1)
  }
}
