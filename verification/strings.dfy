/**
 The three string operations the filter relies on: lower-casing
 (`String.prototype.toLowerCase`, restricted to ASCII letters), substring
 search (`String.prototype.includes`) and `Array.prototype.join`.
 */
module Strings {

  /* ---------------------------------------------------------------------- */
  /* Lower-casing                                                            */
  /* ---------------------------------------------------------------------- */

  predicate IsUpper(c: char) {
    'A' <= c <= 'Z'
  }

  /** ASCII lower-casing of one character; every other character is kept. */
  function LowerChar(c: char): (d: char)
    ensures !IsUpper(d)
    ensures !IsUpper(c) ==> d == c
    ensures IsUpper(c) ==> d as int - c as int == 'a' as int - 'A' as int
  {
    if IsUpper(c) then (c as int - 'A' as int + 'a' as int) as char else c
  }

  /** Lower-cases every character, position by position. */
  function Lower(s: string): (r: string)
    ensures |r| == |s|
    ensures forall i :: 0 <= i < |s| ==> r[i] == LowerChar(s[i])
  {
    seq(|s|, i requires 0 <= i < |s| => LowerChar(s[i]))
  }

  /** A lower-cased string has no upper-case letter left, so lower-casing it again changes nothing. */
  lemma LowerIdempotent(s: string)
    ensures forall i :: 0 <= i < |Lower(s)| ==> !IsUpper(Lower(s)[i])
    ensures Lower(Lower(s)) == Lower(s)
  {
  }

  /** Lower-casing distributes over concatenation. */
  lemma LowerAppend(a: string, b: string)
    ensures Lower(a + b) == Lower(a) + Lower(b)
  {
  }

  /* ---------------------------------------------------------------------- */
  /* Substring search                                                        */
  /* ---------------------------------------------------------------------- */

  /** `needle` occurs in `hay` starting at index `i`. */
  ghost predicate OccursAt(hay: string, needle: string, i: int) {
    0 <= i && i + |needle| <= |hay| && hay[i..i + |needle|] == needle
  }

  /** `needle` is a contiguous substring of `hay`. */
  ghost predicate Contains(hay: string, needle: string) {
    exists i :: OccursAt(hay, needle, i)
  }

  /** An occurrence in the tail of `hay` is an occurrence in `hay`, one position further on. */
  lemma OccursInTail(hay: string, needle: string, i: int)
    requires |hay| > 0 && 0 <= i
    ensures OccursAt(hay[1..], needle, i) <==> OccursAt(hay, needle, i + 1)
  {
    if 0 <= i && i + |needle| <= |hay[1..]| {
      assert hay[1..][i..i + |needle|] == hay[i + 1..i + 1 + |needle|];
    }
  }

  /**
   Executable substring search, scanning the start positions from left to
   right; the empty needle is found in every string.
   */
  function Includes(hay: string, needle: string): (b: bool)
    ensures b <==> Contains(hay, needle)
    decreases |hay|
  {
    if |needle| > |hay| then
      false
    else if hay[..|needle|] == needle then
      assert OccursAt(hay, needle, 0);
      true
    else
      var b := Includes(hay[1..], needle);
      assert b <==> Contains(hay, needle) by {
        if b {
          var i :| OccursAt(hay[1..], needle, i);
          OccursInTail(hay, needle, i);
        }
        if Contains(hay, needle) {
          var i :| OccursAt(hay, needle, i);
          assert i != 0;
          OccursInTail(hay, needle, i - 1);
        }
      }
      b
  }

  /** The empty string occurs in every string. */
  lemma ContainsEmpty(hay: string)
    ensures Contains(hay, "")
  {
    assert OccursAt(hay, "", 0);
  }

  /** A substring of a substring is a substring. */
  lemma ContainsTransitive(a: string, b: string, c: string)
    requires Contains(a, b) && Contains(b, c)
    ensures Contains(a, c)
  {
    var i :| OccursAt(a, b, i);
    var k :| OccursAt(b, c, k);
    forall t | 0 <= t < |c|
      ensures a[i + k..i + k + |c|][t] == c[t]
    {
      assert c[t] == b[k + t] == a[i + k + t];
    }
    assert OccursAt(a, c, i + k);
  }

  /** An occurrence of `b + c` is an occurrence of `b` followed by one of `c`. */
  lemma OccursAtAppend(a: string, b: string, c: string, i: int)
    requires OccursAt(a, b + c, i)
    ensures OccursAt(a, b, i) && OccursAt(a, c, i + |b|)
  {
    assert a[i..i + |b|] == (b + c)[..|b|] == b;
    assert a[i + |b|..i + |b| + |c|] == (b + c)[|b|..] == c;
  }

  /** Both halves of a contained string are contained. */
  lemma ContainsAppend(a: string, b: string, c: string)
    requires Contains(a, b + c)
    ensures Contains(a, b) && Contains(a, c)
  {
    var i :| OccursAt(a, b + c, i);
    OccursAtAppend(a, b, c, i);
  }

  /**
   An occurrence of `needle` that puts its offset `k` before index `m` of
   `hay` shows the character at that offset among the first `m` characters of
   `hay`; so if that character is not among them, every occurrence starts at
   `m - k` or later.
   */
  lemma OccursPastPrefix(hay: string, needle: string, k: int, m: int)
    requires 0 <= k < |needle| && 0 <= m <= |hay|
    ensures forall i :: OccursAt(hay, needle, i) && i + k < m ==> needle[k] in hay[..m]
  {
    forall i | OccursAt(hay, needle, i) && i + k < m
      ensures needle[k] in hay[..m]
    {
      assert hay[..m][i + k] == hay[i..i + |needle|][k];
    }
  }

  /** Lower-casing both strings preserves containment. */
  lemma ContainsLower(a: string, b: string)
    requires Contains(a, b)
    ensures Contains(Lower(a), Lower(b))
  {
    var i :| OccursAt(a, b, i);
    assert Lower(a)[i..i + |b|] == Lower(b);
    assert OccursAt(Lower(a), Lower(b), i);
  }

  /* ---------------------------------------------------------------------- */
  /* Joining                                                                 */
  /* ---------------------------------------------------------------------- */

  /** `Array.prototype.join`: the parts with `sep` between neighbours; no parts give "". */
  function Join(parts: seq<string>, sep: string): string
    decreases |parts|
  {
    if |parts| == 0 then ""
    else if |parts| == 1 then parts[0]
    else parts[0] + sep + Join(parts[1..], sep)
  }

  /** A join of no parts is empty; otherwise it starts with the first part and ends with the last. */
  lemma {:induction false} JoinEnds(parts: seq<string>, sep: string)
    ensures |parts| == 0 ==> Join(parts, sep) == ""
    ensures |parts| > 0 ==> |parts[0]| <= |Join(parts, sep)| && Join(parts, sep)[..|parts[0]|] == parts[0]
    ensures |parts| > 0 ==>
              (|parts[|parts| - 1]| <= |Join(parts, sep)| &&
               Join(parts, sep)[|Join(parts, sep)| - |parts[|parts| - 1]|..] == parts[|parts| - 1])
    decreases |parts|
  {
    if |parts| >= 2 {
      var rest := Join(parts[1..], sep);
      JoinEnds(parts[1..], sep);
      assert Join(parts, sep) == parts[0] + sep + rest;
      assert (parts[0] + sep + rest)[..|parts[0]|] == parts[0];
      assert (parts[0] + sep + rest)[|parts[0] + sep|..] == rest;
    }
  }

  /** Each part lower-cased. */
  function LowerEach(parts: seq<string>): (r: seq<string>)
    ensures |r| == |parts|
    ensures forall k :: 0 <= k < |parts| ==> r[k] == Lower(parts[k])
  {
    seq(|parts|, k requires 0 <= k < |parts| => Lower(parts[k]))
  }

  /** Lower-casing a joined string lower-cases each part and the separator. */
  lemma {:induction false} LowerJoin(parts: seq<string>, sep: string)
    ensures Lower(Join(parts, sep)) == Join(LowerEach(parts), Lower(sep))
    decreases |parts|
  {
    if |parts| >= 2 {
      LowerJoin(parts[1..], sep);
      assert LowerEach(parts)[1..] == LowerEach(parts[1..]);
      LowerAppend(parts[0] + sep, Join(parts[1..], sep));
      LowerAppend(parts[0], sep);
    }
  }

  /** Every part occurs in the joined string. */
  lemma {:induction false} JoinContainsPart(parts: seq<string>, sep: string, k: int)
    requires 0 <= k < |parts|
    ensures Contains(Join(parts, sep), parts[k])
    decreases |parts|
  {
    var j := Join(parts, sep);
    if |parts| == 1 {
      assert OccursAt(j, parts[0], 0);
    } else if k == 0 {
      assert j[..|parts[0]|] == parts[0];
      assert OccursAt(j, parts[0], 0);
    } else {
      JoinContainsPart(parts[1..], sep, k - 1);
      var rest := Join(parts[1..], sep);
      assert OccursAt(j, rest, |parts[0]| + |sep|) by {
        assert j == parts[0] + sep + rest;
        assert j[|parts[0]| + |sep|..] == rest;
      }
      ContainsTransitive(j, rest, parts[k]);
    }
  }

  /** Joining one more part appends the separator and that part. */
  lemma {:induction false} JoinSnoc(parts: seq<string>, sep: string, x: string)
    requires |parts| >= 1
    ensures Join(parts + [x], sep) == Join(parts, sep) + sep + x
    decreases |parts|
  {
    if |parts| == 1 {
      assert (parts + [x])[1..] == [x];
    } else {
      assert (parts + [x])[1..] == parts[1..] + [x];
      JoinSnoc(parts[1..], sep, x);
    }
  }
}
