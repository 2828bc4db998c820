/** The two pieces of SQL text semantics the task search relies on: `LOWER`
    and a `LIKE` pattern of the form '%term%'. Lower-casing is restricted to
    ASCII letters and the term is matched literally (no wildcards inside it). */
module SqlText {

  predicate IsUpper(c: char) {
    'A' <= c <= 'Z'
  }

  /** `LOWER` on one character: upper-case ASCII letters become lower-case,
      every other character is left alone. */
  function LowerChar(c: char): (r: char)
    ensures !IsUpper(r)
    ensures r != c ==> IsUpper(c) && r as int == c as int + 32
    ensures IsUpper(c) ==> r != c
  {
    if IsUpper(c) then (c as int + 32) as char else c
  }

  /** `LOWER` on a string: the same length, each character lower-cased. */
  function Lower(s: string): (r: string)
    ensures |r| == |s|
    ensures forall i :: 0 <= i < |s| ==> r[i] == LowerChar(s[i])
  {
    if s == [] then [] else [LowerChar(s[0])] + Lower(s[1..])
  }

  /** `s LIKE '%' || term || '%'` for a term without wildcards: the term
      occurs somewhere in s. */
  predicate Contains(s: string, term: string) {
    exists i :: 0 <= i <= |s| && term <= s[i..]
  }

  /** Lower-casing twice is lower-casing once. */
  lemma LowerIdempotent(s: string)
    ensures Lower(Lower(s)) == Lower(s)
  {
  }

  /** Lower-casing commutes with taking a slice. */
  lemma LowerSlice(s: string, i: nat, j: nat)
    requires i <= j <= |s|
    ensures Lower(s)[i..j] == Lower(s[i..j])
  {
  }

  /** An occurrence of an occurrence is an occurrence. */
  lemma ContainsTransitive(a: string, b: string, c: string)
    requires Contains(a, b) && Contains(b, c)
    ensures Contains(a, c)
  {
    var i :| 0 <= i <= |a| && b <= a[i..];
    var j :| 0 <= j <= |b| && c <= b[j..];
    assert c <= a[i + j..];
  }

  /** A term found as written is also found after both sides are lower-cased,
      so the case-insensitive search never misses an exact match. */
  lemma LowerPreservesContains(s: string, term: string)
    requires Contains(s, term)
    ensures Contains(Lower(s), Lower(term))
  {
    var i :| 0 <= i <= |s| && term <= s[i..];
    LowerSlice(s, i, i + |term|);
    assert Lower(term) <= Lower(s)[i..];
  }

  /** A search for "milk" finds "Buy MILK". */
  lemma MilkFindsBuyMilk()
    ensures Contains(Lower("Buy MILK"), Lower("milk"))
  {
    var s := Lower("Buy MILK");
    var t := Lower("milk");
    assert s[4..] == "milk" by {
      assert s[4] == LowerChar('M') == 'm';
      assert s[5] == LowerChar('I') == 'i';
      assert s[6] == LowerChar('L') == 'l';
      assert s[7] == LowerChar('K') == 'k';
    }
    assert t == "milk" by {
      assert t[0] == LowerChar('m');
      assert t[1] == LowerChar('i');
      assert t[2] == LowerChar('l');
      assert t[3] == LowerChar('k');
    }
    assert t <= s[4..];
  }
}
