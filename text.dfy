/**
 * The string operations the vault's windows rely on, restricted to ASCII:
 * Python's str.strip(), str.lower(), the `in` substring test and the
 * binary (code point) ordering SQLite uses for ORDER BY on TEXT.
 */
module Text {

  /** Python's str.isspace() on the ASCII range: tab, LF, VT, FF, CR,
      the four separators 0x1C-0x1F, and space. */
  function IsSpace(c: char): (b: bool)
    ensures b <==> c in {' ', '\t', '\n', '\U{B}', '\U{C}', '\r', '\U{1C}', '\U{1D}', '\U{1E}', '\U{1F}'}
  {
    c == ' ' || (9 <= c as int <= 13) || (28 <= c as int <= 31)
  }

  predicate AllSpace(s: string) {
    forall i :: 0 <= i < |s| ==> IsSpace(s[i])
  }

  /** The number of whitespace characters s starts with. */
  function LeadingSpaces(s: string): (n: nat)
    ensures n <= |s|
    ensures forall i :: 0 <= i < n ==> IsSpace(s[i])
    ensures n < |s| ==> !IsSpace(s[n])
  {
    if s != [] && IsSpace(s[0]) then 1 + LeadingSpaces(s[1..]) else 0
  }

  /** The number of whitespace characters s ends with. */
  function TrailingSpaces(s: string): (n: nat)
    ensures n <= |s|
    ensures forall i :: |s| - n <= i < |s| ==> IsSpace(s[i])
    ensures n < |s| ==> !IsSpace(s[|s| - 1 - n])
  {
    if s != [] && IsSpace(s[|s| - 1]) then 1 + TrailingSpaces(s[..|s| - 1]) else 0
  }

  /** Neither end of s is whitespace. */
  predicate Trimmed(s: string) {
    s == [] || (!IsSpace(s[0]) && !IsSpace(s[|s| - 1]))
  }

  /** Python's str.strip() with no argument: the result is the part of s
      between its leading and its trailing whitespace, and only whitespace
      is removed. */
  function Strip(s: string): (r: string)
    ensures |r| <= |s|
    ensures Trimmed(r)
    ensures r == [] <==> AllSpace(s)
    ensures var k := LeadingSpaces(s);
      k + |r| <= |s| && s[k..k + |r|] == r &&
      forall i :: 0 <= i < |s| && !(k <= i < k + |r|) ==> IsSpace(s[i])
  {
    var k := LeadingSpaces(s);
    if k == |s| then [] else s[k..|s| - TrailingSpaces(s)]
  }

  /** Strip leaves a string with no whitespace at either end as it is. */
  lemma StripTrimmed(s: string)
    requires Trimmed(s)
    ensures Strip(s) == s
  {
    if s != [] {
      assert LeadingSpaces(s) == 0;
      assert TrailingSpaces(s) == 0;
      assert s[0..|s|] == s;
    }
  }

  /** Stripping twice is stripping once. */
  lemma StripIdempotent(s: string)
    ensures Strip(Strip(s)) == Strip(s)
  {
    StripTrimmed(Strip(s));
  }

  /** Extending a string keeps its leading whitespace count unless the
      string was all whitespace. */
  lemma {:induction false} LeadingSpacesAppend(s: string, t: string)
    requires LeadingSpaces(s) < |s|
    ensures LeadingSpaces(s + t) == LeadingSpaces(s)
  {
    if IsSpace(s[0]) {
      assert (s + t)[1..] == s[1..] + t;
      LeadingSpacesAppend(s[1..], t);
    }
  }

  lemma SliceOfAppend<T>(s: seq<T>, x: seq<T>, i: int, j: int)
    requires 0 <= i <= j <= |s|
    ensures (s + x)[i..j] == s[i..j]
  {
  }

  /** A trailing whitespace character, such as the newline a Tk text box
      adds, makes no difference once the text is stripped. */
  lemma StripAppendSpace(s: string, c: char)
    requires IsSpace(c)
    ensures Strip(s + [c]) == Strip(s)
  {
    var t := s + [c];
    assert t[..|t| - 1] == s;
    var k, n := LeadingSpaces(s), TrailingSpaces(s);
    assert TrailingSpaces(t) == 1 + n;
    if k < |s| {
      LeadingSpacesAppend(s, [c]);
      SliceOfAppend(s, [c], k, |s| - n);
      assert Strip(t) == t[k..|s| - n];
    } else {
      assert AllSpace(t);
    }
  }

  /** Python's str.lower() on ASCII: 'A'..'Z' become 'a'..'z', every other
      character is kept. */
  function LowerChar(c: char): (d: char)
    ensures !('A' <= d <= 'Z')
    ensures 'A' <= c <= 'Z' ==> d as int == c as int + 32
    ensures !('A' <= c <= 'Z') ==> d == c
  {
    if 'A' <= c <= 'Z' then (c as int + 32) as char else c
  }

  function Lower(s: string): (r: string)
    ensures |r| == |s|
    ensures forall i :: 0 <= i < |s| ==> r[i] == LowerChar(s[i])
  {
    seq(|s|, i requires 0 <= i < |s| => LowerChar(s[i]))
  }

  /** Lowering twice is lowering once. */
  lemma LowerIdempotent(s: string)
    ensures Lower(Lower(s)) == Lower(s)
  {
  }

  /** q occurs in s starting at index i. */
  predicate OccursAt(s: string, q: string, i: int) {
    0 <= i <= |s| - |q| && s[i..i + |q|] == q
  }

  /** Python's `q in s` for strings: q occurs somewhere in s. */
  function Contains(s: string, q: string): (b: bool)
    ensures b <==> exists i :: OccursAt(s, q, i)
    decreases |s|
  {
    if |q| > |s| then false
    else if s[..|q|] == q then assert OccursAt(s, q, 0); true
    else ContainsStep(s, q); Contains(s[1..], q)
  }

  /** When q is not at the front of s, it occurs in s exactly when it
      occurs in s without its first character. */
  lemma ContainsStep(s: string, q: string)
    requires |q| <= |s| && s[..|q|] != q
    ensures (exists i :: OccursAt(s, q, i)) <==> (exists i :: OccursAt(s[1..], q, i))
  {
    forall i | OccursAt(s, q, i) ensures OccursAt(s[1..], q, i - 1) {
      assert i != 0 by { assert s[0..|q|] == s[..|q|]; }
      assert s[1..][i - 1..i - 1 + |q|] == s[i..i + |q|];
    }
    forall i | OccursAt(s[1..], q, i) ensures OccursAt(s, q, i + 1) {
      assert s[i + 1..i + 1 + |q|] == s[1..][i..i + |q|];
    }
  }

  /** The empty query occurs in every string. */
  lemma EmptyIsContained(s: string)
    ensures Contains(s, "")
  {
  }

  /** a and b agree before index k and a has the smaller character at k. */
  predicate FirstDifferenceBelow(a: string, b: string, k: int) {
    0 <= k < |a| && k < |b| && a[..k] == b[..k] && a[k] < b[k]
  }

  /** Lexicographic order by code point: SQLite's BINARY collation on
      UTF-8 text orders strings exactly so. a comes first when it is a
      prefix of b or has the smaller character where they first differ. */
  function LexLe(a: string, b: string): (r: bool)
    ensures r <==> (|a| <= |b| && a == b[..|a|]) || exists k :: FirstDifferenceBelow(a, b, k)
  {
    if a == [] then true
    else if b == [] then LexLeStep(a, b); false
    else if a[0] < b[0] then assert FirstDifferenceBelow(a, b, 0); true
    else LexLeStep(a, b); a[0] == b[0] && LexLe(a[1..], b[1..])
  }

  /** One step of the characterisation above: past a common first
      character, both prefix and first difference move one index on. */
  lemma LexLeStep(a: string, b: string)
    requires a != [] && (b == [] || a[0] >= b[0])
    ensures b == [] || a[0] > b[0] ==>
      !(|a| <= |b| && a == b[..|a|]) && !exists k :: FirstDifferenceBelow(a, b, k)
    ensures b != [] && a[0] == b[0] ==>
      && ((|a| <= |b| && a == b[..|a|]) <==> (|a[1..]| <= |b[1..]| && a[1..] == b[1..][..|a[1..]|]))
      && ((exists k :: FirstDifferenceBelow(a, b, k)) <==> (exists k :: FirstDifferenceBelow(a[1..], b[1..], k)))
  {
    if b == [] {
    } else if a[0] > b[0] {
      forall k | 0 < k <= |a| && k <= |b| ensures a[..k] != b[..k] {
        assert a[..k][0] != b[..k][0];
      }
      if |a| <= |b| { assert b[..|a|][0] != a[0]; }
    } else if a[0] == b[0] {
      if |a| <= |b| && a[1..] == b[1..][..|a[1..]|] {
        assert a == [a[0]] + a[1..] && b[..|a|] == [b[0]] + b[1..][..|a[1..]|];
      }
      if |a| <= |b| && a == b[..|a|] {
        assert a[1..] == b[..|a|][1..];
      }
      forall k | FirstDifferenceBelow(a, b, k) ensures FirstDifferenceBelow(a[1..], b[1..], k - 1) {
        assert k != 0;
        assert a[1..][..k - 1] == a[..k][1..] && b[1..][..k - 1] == b[..k][1..];
      }
      forall k | FirstDifferenceBelow(a[1..], b[1..], k) ensures FirstDifferenceBelow(a, b, k + 1) {
        assert a[..k + 1] == [a[0]] + a[1..][..k] && b[..k + 1] == [b[0]] + b[1..][..k];
      }
    }
  }

  lemma {:induction false} LexLeTotal(a: string, b: string)
    ensures LexLe(a, b) || LexLe(b, a)
  {
    if a != [] && b != [] && a[0] == b[0] {
      LexLeTotal(a[1..], b[1..]);
    }
  }

  lemma {:induction false} LexLeTransitive(a: string, b: string, c: string)
    requires LexLe(a, b) && LexLe(b, c)
    ensures LexLe(a, c)
  {
    if a != [] && b != [] && c != [] && a[0] == b[0] == c[0] {
      LexLeTransitive(a[1..], b[1..], c[1..]);
    }
  }

  lemma {:induction false} LexLeAntisymmetric(a: string, b: string)
    requires LexLe(a, b) && LexLe(b, a)
    ensures a == b
  {
    if a != [] && b != [] {
      LexLeAntisymmetric(a[1..], b[1..]);
    }
  }
}
