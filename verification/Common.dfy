/** What the other modules share: result types, prefixes and ASCII case for frozen digests, and lists
    without repetition. */
module Common {

  datatype Option<+T> = None | Some(value: T)

  datatype Result<+T, +E> = Ok(value: T) | Err(error: E)

  /** True when `whole` begins with `part`. */
  predicate StartsWith(whole: string, part: string) {
    |part| <= |whole| && whole[..|part|] == part
  }

  function LowerChar(c: char): char {
    if 'A' <= c <= 'Z' then (c as int - 'A' as int + 'a' as int) as char else c
  }

  /** Lower-casing over ASCII letters, which is all a hexadecimal digest can contain. */
  function LowerAscii(s: string): string {
    seq(|s|, i requires 0 <= i < |s| => LowerChar(s[i]))
  }

  /** A prefix is what something can be added to. */
  lemma StartsWithIff(whole: string, part: string)
    ensures StartsWith(whole, part) <==> exists rest :: whole == part + rest
  {
    if StartsWith(whole, part) { assert whole == part + whole[|part|..]; }
  }

  /** Each ASCII capital becomes the letter 32 places on, and nothing else changes. */
  lemma LowerAsciiIs(s: string)
    ensures |LowerAscii(s)| == |s|
    ensures forall i :: 0 <= i < |s| ==>
              LowerAscii(s)[i] as int == s[i] as int + if 0x41 <= s[i] as int <= 0x5A then 0x20 else 0
  {
  }

  /** A set that is not empty has a member. */
  lemma SomeMember<T>(s: set<T>) returns (m: T)
    requires s != {}
    ensures m in s
  {
    m :| m in s;
  }

  ghost predicate Distinct<T>(s: seq<T>) {
    forall i, j :: 0 <= i < j < |s| ==> s[i] != s[j]
  }
}
