/** The JavaScript string operations the components use: `trim`, `includes` and an ordering for `localeCompare`. */
module Strings {

  /** The characters `String.prototype.trim` strips: ECMAScript WhiteSpace and LineTerminator. */
  predicate IsWhitespace(c: char)
  {
    c in {'\t', '\n', '\U{B}', '\U{C}', '\r', ' ', '\U{A0}', '\U{1680}',
          '\U{2000}', '\U{2001}', '\U{2002}', '\U{2003}', '\U{2004}', '\U{2005}',
          '\U{2006}', '\U{2007}', '\U{2008}', '\U{2009}', '\U{200A}',
          '\U{2028}', '\U{2029}', '\U{202F}', '\U{205F}', '\U{3000}', '\U{FEFF}'}
  }

  predicate AllWhitespace(s: string)
  {
    forall k :: 0 <= k < |s| ==> IsWhitespace(s[k])
  }

  /** Index of the first non-whitespace character (or |s|). */
  function LeadingWhitespace(s: string): (i: nat)
    ensures i <= |s|
    ensures forall k :: 0 <= k < i ==> IsWhitespace(s[k])
    ensures i < |s| ==> !IsWhitespace(s[i])
  {
    if s == [] || !IsWhitespace(s[0]) then 0 else 1 + LeadingWhitespace(s[1..])
  }

  /** One past the index of the last non-whitespace character (or 0). */
  function TrailingEnd(s: string): (j: nat)
    ensures j <= |s|
    ensures forall k :: j <= k < |s| ==> IsWhitespace(s[k])
    ensures j > 0 ==> !IsWhitespace(s[j - 1])
  {
    if s == [] || !IsWhitespace(s[|s| - 1]) then |s| else TrailingEnd(s[..|s| - 1])
  }

  /** Whitespace from offset `e` of the tail `s[i..]` on is whitespace from `i + e` on in `s`. */
  lemma WhitespaceTail(s: string, i: nat, e: nat)
    requires i <= |s| && e <= |s| - i
    requires forall k :: e <= k < |s| - i ==> IsWhitespace(s[i..][k])
    ensures AllWhitespace(s[i + e..])
  {
    var u, v := s[i + e..], s[i..];
    assert forall k :: 0 <= k < |u| ==> u[k] == v[e + k];
  }

  /** When nothing is kept, the whole string is whitespace. */
  lemma NothingKept(s: string, i: nat)
    requires i <= |s| && AllWhitespace(s[..i])
    requires forall k :: 0 <= k < |s| - i ==> IsWhitespace(s[i..][k])
    ensures AllWhitespace(s)
  {
    assert forall k :: 0 <= k < i ==> s[k] == s[..i][k];
    assert forall k :: i <= k < |s| ==> s[k] == s[i..][k - i];
  }

  /** The bounds `Trim` cuts at: only whitespace before `i` and from `j` on, and none at either end of the
      part kept. */
  lemma TrimBounds(s: string)
    ensures var i := LeadingWhitespace(s);
      var j := i + TrailingEnd(s[i..]);
      i <= j <= |s| && AllWhitespace(s[..i]) && AllWhitespace(s[j..])
      && (i < j ==> !IsWhitespace(s[i]) && !IsWhitespace(s[j - 1]))
      && (i == j ==> AllWhitespace(s))
  {
    var i := LeadingWhitespace(s);
    var e := TrailingEnd(s[i..]);
    WhitespaceTail(s, i, e);
    if e == 0 {
      NothingKept(s, i);
    } else {
      assert s[i] == s[i..][0] && s[i + e - 1] == s[i..][e - 1];
    }
  }

  /** `String.prototype.trim`. */
  function Trim(s: string): (r: string)
    ensures |r| <= |s|
    ensures r == "" <==> AllWhitespace(s)
    ensures r != "" ==> !IsWhitespace(r[0]) && !IsWhitespace(r[|r| - 1])
    ensures forall c :: c in r ==> c in s
    ensures exists i, j :: 0 <= i <= j <= |s| && r == s[i..j] && AllWhitespace(s[..i]) && AllWhitespace(s[j..])
  {
    var i := LeadingWhitespace(s);
    var j := i + TrailingEnd(s[i..]);
    TrimBounds(s);
    s[i..j]
  }

  /** Trimming a string with no surrounding whitespace returns it unchanged; so trimming is idempotent. */
  lemma TrimIdempotent(s: string)
    ensures Trim(Trim(s)) == Trim(s)
  {
    var r := Trim(s);
    if r != "" {
      assert LeadingWhitespace(r) == 0;
      assert r[0..] == r;
      assert TrailingEnd(r) == |r|;
    }
  }

  predicate StartsWith(s: string, t: string)
  {
    |t| <= |s| && s[..|t|] == t
  }

  /** `t` occurs in `s` starting at index `i`. */
  predicate OccursAt(s: string, t: string, i: int)
  {
    0 <= i <= |s| - |t| && s[i..i + |t|] == t
  }

  lemma OccursAtTail(s: string, t: string, i: nat)
    requires |s| > 0
    ensures OccursAt(s[1..], t, i) <==> OccursAt(s, t, i + 1)
  {
    if 0 <= i <= |s| - 1 - |t| {
      assert s[1..][i..i + |t|] == s[i + 1..i + 1 + |t|];
    }
  }

  /** `String.prototype.includes`: `t` occurs in `s` as a contiguous block. */
  function Includes(s: string, t: string): (b: bool)
    ensures b <==> exists i :: OccursAt(s, t, i)
  {
    if StartsWith(s, t) then
      assert s[0..0 + |t|] == t;
      assert OccursAt(s, t, 0);
      true
    else if |s| == 0 then
      false
    else
      var rest := Includes(s[1..], t);
      assert rest ==> exists i :: OccursAt(s, t, i) by {
        if rest {
          var i :| OccursAt(s[1..], t, i);
          OccursAtTail(s, t, i);
        }
      }
      assert (exists i :: OccursAt(s, t, i)) ==> rest by {
        if exists i :: OccursAt(s, t, i) {
          var i :| OccursAt(s, t, i);
          assert i != 0;
          OccursAtTail(s, t, i - 1);
        }
      }
      rest
  }

  /** Every string includes the empty string, so an empty search term matches everything. */
  lemma IncludesEmpty(s: string)
    ensures Includes(s, "")
  {
    assert s[..0] == "";
  }

  /** A string that includes `t + more` includes `t`: a longer search term matches less. */
  lemma IncludesPrefix(s: string, t: string, more: string)
    requires Includes(s, t + more)
    ensures Includes(s, t)
  {
    var i :| OccursAt(s, t + more, i);
    assert s[i..i + |t + more|][..|t|] == s[i..i + |t|];
    assert OccursAt(s, t, i);
  }

  /** Lexicographic order on code points: the model's stand-in for `localeCompare(...) <= 0`. */
  predicate LexLessEq(a: string, b: string)
  {
    if a == [] then true
    else if b == [] then false
    else if a[0] != b[0] then a[0] < b[0]
    else LexLessEq(a[1..], b[1..])
  }

  /** The order is total, which is what a comparator-driven sort relies on. */
  lemma {:induction false} LexTotal(a: string, b: string)
    ensures LexLessEq(a, b) || LexLessEq(b, a)
  {
    if a != [] && b != [] && a[0] == b[0] {
      LexTotal(a[1..], b[1..]);
    }
  }

  /** The order is transitive. */
  lemma {:induction false} LexTransitive(a: string, b: string, c: string)
    requires LexLessEq(a, b) && LexLessEq(b, c)
    ensures LexLessEq(a, c)
  {
    if a != [] && b != [] && c != [] && a[0] == b[0] && b[0] == c[0] {
      LexTransitive(a[1..], b[1..], c[1..]);
    }
  }
}
