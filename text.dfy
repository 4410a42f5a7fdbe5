/** String helpers standing in for the Python `str` methods the catalogue
    relies on: `isdigit`, `isalnum`, `lower`, `replace(" ", "")`, the `in`
    substring test, `", ".join(...)` and slicing `s[:k]`.
    Character classes are restricted to ASCII. */
module Text {

  type String = seq<char>

  predicate IsDigitChar(c: char) { '0' <= c <= '9' }

  predicate IsAlphaChar(c: char) { 'a' <= c <= 'z' || 'A' <= c <= 'Z' }

  predicate IsAlnumChar(c: char) { IsDigitChar(c) || IsAlphaChar(c) }

  /** `str.isdigit()`: false on the empty string. */
  predicate IsDigits(s: String)
  {
    |s| > 0 && forall i :: 0 <= i < |s| ==> IsDigitChar(s[i])
  }

  /** `str.isalnum()`: false on the empty string. */
  predicate IsAlnum(s: String)
  {
    |s| > 0 && forall i :: 0 <= i < |s| ==> IsAlnumChar(s[i])
  }

  function LowerChar(c: char): char
  {
    if 'A' <= c <= 'Z' then (c as int - 'A' as int + 'a' as int) as char else c
  }

  /** `str.lower()` */
  function Lower(s: String): (r: String)
    ensures |r| == |s|
    ensures forall i :: 0 <= i < |s| ==> r[i] == LowerChar(s[i])
  {
    if s == [] then [] else [LowerChar(s[0])] + Lower(s[1..])
  }

  lemma {:induction false} LowerIdempotent(s: String)
    ensures Lower(Lower(s)) == Lower(s)
  {
    var once := Lower(s);
    var twice := Lower(once);
    assert forall i :: 0 <= i < |s| ==> twice[i] == LowerChar(LowerChar(s[i])) == once[i];
  }

  /** `s.replace(" ", "")`: drops every space and keeps the rest in order. */
  function RemoveSpaces(s: String): (r: String)
    ensures |r| <= |s|
    ensures forall c :: c in r <==> c in s && c != ' '
  {
    if s == [] then []
    else (if s[0] == ' ' then [] else [s[0]]) + RemoveSpaces(s[1..])
  }

  /** Without spaces, `replace(" ", "")` changes nothing. */
  lemma {:induction false} RemoveSpacesNoSpace(s: String)
    requires ' ' !in s
    ensures RemoveSpaces(s) == s
  {
    if s != [] {
      assert s == [s[0]] + s[1..];
      RemoveSpacesNoSpace(s[1..]);
    }
  }

  /** A character-level reading of `s.replace(" ", "").isalnum()`:
      some character is not a space and every character is a space or
      alphanumeric. */
  predicate AlnumOrSpaces(s: String)
  {
    (exists i :: 0 <= i < |s| && s[i] != ' ') &&
    forall i :: 0 <= i < |s| ==> s[i] == ' ' || IsAlnumChar(s[i])
  }

  lemma RemoveSpacesIsAlnum(s: String)
    ensures IsAlnum(RemoveSpaces(s)) <==> AlnumOrSpaces(s)
  {
    var r := RemoveSpaces(s);
    if IsAlnum(r) {
      assert r[0] in r;
      forall i | 0 <= i < |s| ensures s[i] == ' ' || IsAlnumChar(s[i]) {
        if s[i] != ' ' {
          assert s[i] in s;
          assert s[i] in r;
          var j :| 0 <= j < |r| && r[j] == s[i];
        }
      }
      var k :| 0 <= k < |s| && s[k] == r[0];
    }
    if AlnumOrSpaces(s) {
      var k :| 0 <= k < |s| && s[k] != ' ';
      assert s[k] in s;
      assert s[k] in r;
      forall i | 0 <= i < |r| ensures IsAlnumChar(r[i]) {
        assert r[i] in r;
        var j :| 0 <= j < |s| && s[j] == r[i];
      }
    }
  }

  /** Python's `needle in hay` for strings, scanning from the front. */
  predicate Contains(needle: String, hay: String)
    decreases |hay|
  {
    (|needle| <= |hay| && hay[..|needle|] == needle) ||
    (|hay| > 0 && Contains(needle, hay[1..]))
  }

  /** `needle` occurs in `hay` starting at index `i`. */
  predicate OccursAt(needle: String, hay: String, i: int)
  {
    0 <= i && i + |needle| <= |hay| && hay[i..i + |needle|] == needle
  }

  /** The scanning definition of the substring test agrees with the
      index-based one. */
  lemma {:induction false} ContainsIffOccurs(needle: String, hay: String)
    ensures Contains(needle, hay) <==> exists i :: OccursAt(needle, hay, i)
    decreases |hay|
  {
    if |needle| <= |hay| && hay[..|needle|] == needle {
      assert OccursAt(needle, hay, 0);
    } else if |hay| > 0 {
      ContainsIffOccurs(needle, hay[1..]);
      if Contains(needle, hay[1..]) {
        var i :| OccursAt(needle, hay[1..], i);
        assert hay[1..][i..i + |needle|] == hay[i + 1..i + 1 + |needle|];
        assert OccursAt(needle, hay, i + 1);
      }
      if exists i :: OccursAt(needle, hay, i) {
        var i :| OccursAt(needle, hay, i);
        assert i != 0;
        assert hay[1..][i - 1..i - 1 + |needle|] == hay[i..i + |needle|];
        assert OccursAt(needle, hay[1..], i - 1);
      }
    }
  }

  /** `sep.join(xs)` */
  function Join(sep: String, xs: seq<String>): String
    decreases |xs|
  {
    if |xs| == 0 then ""
    else if |xs| == 1 then xs[0]
    else xs[0] + sep + Join(sep, xs[1..])
  }

  /** Joining one more item appends the separator and that item. */
  lemma {:induction false} JoinSnoc(sep: String, xs: seq<String>, y: String)
    requires xs != []
    ensures Join(sep, xs + [y]) == Join(sep, xs) + sep + y
    decreases |xs|
  {
    if |xs| > 1 {
      assert (xs + [y])[1..] == xs[1..] + [y];
      JoinSnoc(sep, xs[1..], y);
    } else {
      assert (xs + [y])[1..] == [y];
    }
  }

  /** Python slicing `s[:k]` for k >= 0. */
  function Prefix(s: String, k: nat): (r: String)
    ensures |r| <= k && |r| <= |s|
    ensures |r| == k || |r| == |s|
    ensures r == s[..|r|]
  {
    if |s| <= k then s else s[..k]
  }
}
