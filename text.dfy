/**
 * Text matching used by the question search: the database's case-insensitive
 * `ILIKE '%term%'`, modelled as plain substring containment after ASCII lower-casing.
 */
module Text {

  /** ASCII lower-casing of one character; every other character is left alone. */
  function LowerChar(ch: char): char {
    if 'A' <= ch <= 'Z' then (ch as int - 'A' as int + 'a' as int) as char else ch
  }

  function Lower(s: string): string {
    seq(|s|, i requires 0 <= i < |s| => LowerChar(s[i]))
  }

  /** `pat` occurs in `text` starting at position `i` (the reference definition of containment). */
  predicate OccursAt(text: string, pat: string, i: int) {
    0 <= i && i + |pat| <= |text| && text[i..i + |pat|] == pat
  }

  /** `pat` is a substring of `text`, decided by scanning the start positions one by one. */
  predicate Contains(text: string, pat: string): (b: bool)
    ensures b ==> |pat| <= |text|
    decreases |text|
  {
    pat <= text || (text != [] && Contains(text[1..], pat))
  }

  /** The search condition `question ILIKE '%' || term || '%'`; a matching term is never longer than the text. */
  predicate ContainsIgnoringCase(text: string, term: string): (b: bool)
    ensures b ==> |term| <= |text|
    ensures term == "" ==> b
  {
    Contains(Lower(text), Lower(term))
  }

  /** The scanning definition agrees with the positional one, in both directions. */
  lemma {:induction false} ContainsIffOccurs(text: string, pat: string)
    ensures Contains(text, pat) <==> exists i :: OccursAt(text, pat, i)
    decreases |text|
  {
    if pat <= text {
      assert OccursAt(text, pat, 0);
    } else if text == [] {
      assert !exists i :: OccursAt(text, pat, i);
    } else {
      ContainsIffOccurs(text[1..], pat);
      if Contains(text[1..], pat) {
        var i :| OccursAt(text[1..], pat, i);
        assert text[i + 1..i + 1 + |pat|] == text[1..][i..i + |pat|];
        assert OccursAt(text, pat, i + 1);
      }
      if exists i :: OccursAt(text, pat, i) {
        var i :| OccursAt(text, pat, i);
        assert i != 0;
        assert text[1..][i - 1..i - 1 + |pat|] == text[i..i + |pat|];
        assert OccursAt(text[1..], pat, i - 1);
      }
    }
  }

  /** A pattern holding a character the text lacks is not contained in it. */
  lemma MissingCharNeverContained(text: string, pat: string, k: int)
    requires 0 <= k < |pat| && pat[k] !in text
    ensures !Contains(text, pat)
  {
    ContainsIffOccurs(text, pat);
  }

  /** The empty search term matches every question text (`ILIKE '%%'`). */
  lemma EmptyTermMatchesAll(text: string)
    ensures ContainsIgnoringCase(text, "")
  {
  }

  /** Terms that differ only in letter case select the same texts. */
  lemma CaseOfTermIrrelevant(text: string, t1: string, t2: string)
    requires Lower(t1) == Lower(t2)
    ensures ContainsIgnoringCase(text, t1) <==> ContainsIgnoringCase(text, t2)
  {
  }

  /** A term matches a text exactly when its lower-cased form occurs somewhere in the lower-cased text. */
  lemma {:induction false} ContainsIgnoringCaseIff(text: string, term: string)
    ensures ContainsIgnoringCase(text, term) <==>
            exists i :: OccursAt(Lower(text), Lower(term), i)
  {
    ContainsIffOccurs(Lower(text), Lower(term));
  }
}
