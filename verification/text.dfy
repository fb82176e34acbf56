/**
 * String helpers with the semantics of the Python string methods the
 * handlers call: `strip`, `lower`, `in` on strings, `startswith` and `rfind`.
 */
module Text {

  /** The characters Python's `str.isspace` accepts; `str.strip()` without
      arguments removes exactly these. */
  predicate IsSpace(c: char) {
    || c == ' '
    || ('\U{0009}' <= c <= '\U{000D}')
    || ('\U{001C}' <= c <= '\U{001F}')
    || c == '\U{0085}' || c == '\U{00A0}' || c == '\U{1680}'
    || ('\U{2000}' <= c <= '\U{200A}')
    || c == '\U{2028}' || c == '\U{2029}' || c == '\U{202F}'
    || c == '\U{205F}' || c == '\U{3000}'
  }

  /** The character sets the handlers strip: `strip('/')` removes slashes,
      `strip()` whitespace. */
  datatype Chars = Slashes | Whitespace

  predicate Drops(chars: Chars, c: char) {
    match chars
    case Slashes => c == '/'
    case Whitespace => IsSpace(c)
  }

  /** `s[i..j]` is what stripping leaves: every character before `i` and
      from `j` on is dropped, and the infix, when non-empty, starts and ends
      with kept characters. */
  predicate StrippedAt(s: string, drop: Chars, i: int, j: int) {
    && 0 <= i <= j <= |s|
    && (forall k :: 0 <= k < i ==> Drops(drop, s[k]))
    && (forall k :: j <= k < |s| ==> Drops(drop, s[k]))
    && (i == j || (!Drops(drop, s[i]) && !Drops(drop, s[j - 1])))
  }

  /** The left scan of `strip`: from `i` on, skips dropped characters and
      returns the offset of the first kept one, or `|s|`. */
  function StripStart(s: string, drop: Chars, i: nat): (n: nat)
    requires i <= |s|
    requires forall k :: 0 <= k < i ==> Drops(drop, s[k])
    ensures i <= n <= |s|
    ensures forall k :: 0 <= k < n ==> Drops(drop, s[k])
    ensures n == |s| || !Drops(drop, s[n])
    decreases |s| - i
  {
    if i < |s| && Drops(drop, s[i]) then StripStart(s, drop, i + 1) else i
  }

  /** The right scan of `strip`: from the end `j` back to `lo`, skips
      dropped characters and returns the offset just past the last kept
      one, or `lo`. */
  function StripEnd(s: string, drop: Chars, lo: nat, j: nat): (n: nat)
    requires lo <= j <= |s|
    requires forall k :: j <= k < |s| ==> Drops(drop, s[k])
    ensures lo <= n <= j
    ensures forall k :: n <= k < |s| ==> Drops(drop, s[k])
    ensures n == lo || !Drops(drop, s[n - 1])
    decreases j
  {
    if j > lo && Drops(drop, s[j - 1]) then StripEnd(s, drop, lo, j - 1) else j
  }

  /** `s.strip(chars)`: the infix of `s` left when the dropped characters
      are removed from both ends. */
  function Strip(s: string, drop: Chars): (r: string)
    ensures |r| <= |s|
    ensures exists i, j :: StrippedAt(s, drop, i, j) && r == s[i..j]
  {
    var i := StripStart(s, drop, 0);
    var j := StripEnd(s, drop, i, |s|);
    assert StrippedAt(s, drop, i, j);
    s[i..j]
  }

  /** The infix `StrippedAt` describes is unique. */
  lemma StrippedAtUnique(s: string, drop: Chars, i: int, j: int, i2: int, j2: int)
    requires StrippedAt(s, drop, i, j) && StrippedAt(s, drop, i2, j2)
    ensures s[i..j] == s[i2..j2]
  {
  }

  /** `Strip` yields the infix `StrippedAt` describes. */
  lemma StripUnique(s: string, drop: Chars, i: int, j: int)
    requires StrippedAt(s, drop, i, j)
    ensures Strip(s, drop) == s[i..j]
  {
    var r := Strip(s, drop);
    var i', j' :| StrippedAt(s, drop, i', j') && r == s[i'..j'];
    StrippedAtUnique(s, drop, i, j, i', j');
  }

  /** `s` is what `Strip` drops in front, what it keeps, and what it drops
      behind. */
  lemma StripFrame(s: string, drop: Chars) returns (head: string, tail: string)
    ensures s == head + Strip(s, drop) + tail
    ensures forall k :: 0 <= k < |head| ==> Drops(drop, head[k])
    ensures forall k :: 0 <= k < |tail| ==> Drops(drop, tail[k])
  {
    var r := Strip(s, drop);
    var i, j :| StrippedAt(s, drop, i, j) && r == s[i..j];
    head, tail := SliceFrame(s, drop, i, j);
  }

  lemma SliceFrame(s: string, drop: Chars, i: int, j: int) returns (head: string, tail: string)
    requires StrippedAt(s, drop, i, j)
    ensures s == head + s[i..j] + tail
    ensures forall k :: 0 <= k < |head| ==> Drops(drop, head[k])
    ensures forall k :: 0 <= k < |tail| ==> Drops(drop, tail[k])
  {
    head, tail := s[..i], s[j..];
    assert s == head + s[i..j] + tail;
    forall k | 0 <= k < |head|
      ensures Drops(drop, head[k])
    {
      assert head[k] == s[k];
    }
    forall k | 0 <= k < |tail|
      ensures Drops(drop, tail[k])
    {
      assert tail[k] == s[j + k];
    }
  }

  /** Stripping twice removes nothing more. */
  lemma StripIdempotent(s: string, drop: Chars)
    ensures Strip(Strip(s, drop), drop) == Strip(s, drop)
  {
    var r := Strip(s, drop);
    var i, j :| StrippedAt(s, drop, i, j) && r == s[i..j];
    assert StrippedAt(r, drop, 0, |r|);
    StripUnique(r, drop, 0, |r|);
  }

  /** Stripping leaves nothing exactly when every character is dropped. */
  lemma StripEmptyIffAllDropped(s: string, drop: Chars)
    ensures Strip(s, drop) == [] <==> forall k :: 0 <= k < |s| ==> Drops(drop, s[k])
  {
    var r := Strip(s, drop);
    var i, j :| StrippedAt(s, drop, i, j) && r == s[i..j];
  }

  /** `str.lower()` on one character, restricted to ASCII letters. */
  function LowerChar(c: char): char {
    if 'A' <= c <= 'Z' then (c as int + 32) as char else c
  }

  /** `str.lower()`, lowering ASCII letters only. */
  function Lower(s: string): (r: string)
    ensures |r| == |s|
    ensures forall k :: 0 <= k < |s| ==> r[k] == LowerChar(s[k])
  {
    seq(|s|, k requires 0 <= k < |s| => LowerChar(s[k]))
  }

  /** Lowering never creates nor removes a dot, and its output holds no
      upper-case ASCII letter, so lowering twice is lowering once. */
  lemma LowerFacts(s: string)
    ensures forall k :: 0 <= k < |s| ==> (Lower(s)[k] == '.' <==> s[k] == '.')
    ensures forall k :: 0 <= k < |s| ==> !('A' <= Lower(s)[k] <= 'Z')
    ensures Lower(Lower(s)) == Lower(s)
  {
  }

  lemma LowerSlice(s: string, i: int)
    requires 0 <= i <= |s|
    ensures Lower(s[i..]) == Lower(s)[i..]
  {
  }

  predicate StartsWith(s: string, p: string) {
    |p| <= |s| && s[..|p|] == p
  }

  /** `t` occurs in `s` starting at offset `i`. */
  predicate OccursAt(s: string, t: string, i: int) {
    0 <= i <= |s| - |t| && s[i..i + |t|] == t
  }

  /** Python's `t in s` for strings: a scan for `t` at every offset. */
  predicate Contains(s: string, t: string)
    decreases |s|
  {
    StartsWith(s, t) || (|s| > 0 && Contains(s[1..], t))
  }

  /** The scan finds `t` exactly when `t` occurs at some offset of `s`. */
  lemma {:induction false} ContainsIff(s: string, t: string)
    ensures Contains(s, t) <==> exists i :: OccursAt(s, t, i)
    decreases |s|
  {
    if StartsWith(s, t) {
      assert OccursAt(s, t, 0);
    } else if |s| > 0 {
      ContainsIff(s[1..], t);
      if Contains(s[1..], t) {
        var i :| OccursAt(s[1..], t, i);
        assert s[1..][i..i + |t|] == s[i + 1..i + 1 + |t|];
        assert OccursAt(s, t, i + 1);
      } else {
        forall i | OccursAt(s, t, i)
          ensures false
        {
          if i > 0 {
            var u := s[1..];
            assert forall k :: i <= k < i + |t| ==> s[k] == u[k - 1];
            assert u[i - 1..i - 1 + |t|] == s[i..i + |t|];
            assert OccursAt(s[1..], t, i - 1);
          }
        }
      }
    }
  }

  /** `s.rfind(c)`: the index of the last `c` in `s`, or -1. */
  function RFind(s: string, c: char): (r: int)
    ensures -1 <= r < |s|
    ensures r >= 0 ==> s[r] == c
    ensures forall k :: r < k < |s| ==> s[k] != c
    decreases |s|
  {
    if |s| == 0 then -1
    else if s[|s| - 1] == c then |s| - 1
    else RFind(s[..|s| - 1], c)
  }

  /** The last occurrence in a concatenation is in the right part when the
      right part has one, and otherwise it is the left part's last one. */
  lemma RFindAppend(a: string, b: string, c: char)
    ensures RFind(a + b, c) == if RFind(b, c) >= 0 then |a| + RFind(b, c) else RFind(a, c)
  {
    var r := RFind(a + b, c);
    var rb := RFind(b, c);
    var ra := RFind(a, c);
    if rb >= 0 {
      assert (a + b)[|a| + rb] == c;
      assert r >= |a| + rb;
    } else {
      assert forall k :: |a| <= k < |a| + |b| ==> (a + b)[k] == b[k - |a|];
      assert r < |a|;
      if ra >= 0 {
        assert (a + b)[ra] == c;
        assert r >= ra;
      }
    }
  }
}
