/**
 * Shared vocabulary of the model: optional values, the outcome of a Python
 * call (a value, a `sys.exit`, or an uncaught exception), bytes, and the few
 * Python `str` operations the core relies on (`find`, `split`, `startswith`,
 * slicing with negative indices, `strip`, `str(int)`).
 */
module Base {

  datatype Option<T> = None | Some(value: T)

  /** The Python exceptions the modelled code can let escape. */
  datatype PyError =
    | IndexError
    | KeyError
    | ValueError
    | TypeError
    | RuntimeError
    | IsADirectoryError

  /** What a call ends in: a value, `sys.exit(code)`, or an uncaught exception. */
  datatype Result<T> = Ok(value: T) | Exit(code: int) | Raised(error: PyError)

  /** A failed call's exit or exception, carried over to a caller with another result type. */
  function Failed<A, B>(r: Result<A>): Result<B>
    requires !r.Ok?
  {
    if r.Exit? then Exit(r.code) else Raised(r.error)
  }

  type byte = b: int | 0 <= b < 256

  // ---------------------------------------------------------------------------
  // Substrings and str.find

  predicate StartsWith<T(==)>(s: seq<T>, p: seq<T>) {
    |p| <= |s| && s[..|p|] == p
  }

  predicate OccursAt<T(==)>(s: seq<T>, p: seq<T>, i: int) {
    0 <= i && i + |p| <= |s| && s[i..i + |p|] == p
  }

  lemma OccursAtTail<T>(s: seq<T>, p: seq<T>, i: int)
    requires |s| > 0 && 0 <= i
    ensures OccursAt(s[1..], p, i) <==> OccursAt(s, p, i + 1)
  {
    if i + |p| <= |s| - 1 {
      assert s[1..][i..i + |p|] == s[i + 1..i + 1 + |p|];
    }
  }

  /** `s.find(p)`: the first index at which `p` occurs in `s`, or -1. */
  function Find<T(==)>(s: seq<T>, p: seq<T>): (r: int)
    ensures -1 <= r <= |s|
    ensures r >= 0 ==> OccursAt(s, p, r)
    ensures forall i {:trigger OccursAt(s, p, i)} :: 0 <= i && (r == -1 || i < r) ==> !OccursAt(s, p, i)
    decreases |s|
  {
    if |s| < |p| then -1
    else if s[..|p|] == p then 0
    else
      var k := Find(s[1..], p);
      forall i | 0 <= i && (k == -1 || i < k + 1) ensures !OccursAt(s, p, i) {
        if i > 0 { OccursAtTail(s, p, i - 1); }
      }
      if k == -1 then -1
      else
        OccursAtTail(s, p, k);
        k + 1
  }

  predicate Contains<T(==)>(s: seq<T>, p: seq<T>) {
    Find(s, p) != -1
  }

  predicate EndsWith<T(==)>(s: seq<T>, p: seq<T>) {
    |p| <= |s| && s[|s| - |p|..] == p
  }

  /** Text that does not contain the one-element sequence `[c]` does not hold `c` at all. */
  lemma NoCharFound<T>(s: seq<T>, c: T)
    requires !Contains(s, [c])
    ensures c !in s
  {
    forall j | 0 <= j < |s| ensures s[j] != c {
      assert !OccursAt(s, [c], j);
      assert s[j..j + 1] == [s[j]];
    }
  }

  // ---------------------------------------------------------------------------
  // str.split(sep) and its inverse, sep.join(pieces)

  /** `s.split(sep)` for a non-empty separator: cut at every leftmost, non-overlapping occurrence. */
  function Split<T(==)>(s: seq<T>, sep: seq<T>): (r: seq<seq<T>>)
    requires sep != []
    ensures |r| >= 1
    decreases |s|
  {
    var i := Find(s, sep);
    if i == -1 then [s] else [s[..i]] + Split(s[i + |sep|..], sep)
  }

  function Join<T>(pieces: seq<seq<T>>, sep: seq<T>): seq<T> {
    if |pieces| == 0 then []
    else if |pieces| == 1 then pieces[0]
    else pieces[0] + sep + Join(pieces[1..], sep)
  }

  /** Splitting and re-joining with the same separator gives back the text. */
  lemma {:induction false} JoinSplit<T>(s: seq<T>, sep: seq<T>)
    requires sep != []
    ensures Join(Split(s, sep), sep) == s
    decreases |s|
  {
    var i := Find(s, sep);
    if i != -1 {
      var rest := s[i + |sep|..];
      var pieces := [s[..i]] + Split(rest, sep);
      assert pieces[0] == s[..i] && pieces[1..] == Split(rest, sep);
      JoinSplit(rest, sep);
      assert Join(pieces, sep) == s[..i] + sep + rest;
      assert s == s[..i] + sep + rest;
    }
  }

  /** No piece of a split still holds the separator. */
  lemma {:induction false} SplitPiecesFree<T>(s: seq<T>, sep: seq<T>)
    requires sep != []
    ensures forall j :: 0 <= j < |Split(s, sep)| ==> !Contains(Split(s, sep)[j], sep)
    decreases |s|
  {
    var i := Find(s, sep);
    if i == -1 {
    } else {
      SplitPiecesFree(s[i + |sep|..], sep);
      PrefixBeforeFind(s, sep);
    }
  }

  /** A text without the separator splits into itself alone. */
  lemma SplitNoSep<T>(s: seq<T>, sep: seq<T>)
    requires sep != [] && !Contains(s, sep)
    ensures Split(s, sep) == [s]
  {
  }

  /** `a + sep + b` with no separator in `a` splits at that separator first. */
  lemma SplitFirst<T>(a: seq<T>, sep: seq<T>, b: seq<T>)
    requires sep != [] && !Contains(a, sep)
    requires forall i :: 0 <= i < |a| ==> !OccursAt(a + sep + b, sep, i)
    ensures Split(a + sep + b, sep) == [a] + Split(b, sep)
  {
    var s := a + sep + b;
    assert OccursAt(s, sep, |a|) by { assert s[|a|..|a| + |sep|] == sep; }
    assert Find(s, sep) == |a|;
    assert s[..|a|] == a;
    assert s[|a| + |sep|..] == b;
  }

  /** Nothing before the first occurrence of `sep` holds `sep`. */
  lemma PrefixBeforeFind<T>(s: seq<T>, sep: seq<T>)
    requires sep != [] && Find(s, sep) != -1
    ensures !Contains(s[..Find(s, sep)], sep)
  {
    var i := Find(s, sep);
    var head := s[..i];
    if Contains(head, sep) {
      var k := Find(head, sep);
      assert head[k..k + |sep|] == s[k..k + |sep|];
      assert OccursAt(s, sep, k);
    }
  }

  /** `s.split(sep, 1)`: at most one cut, at the first occurrence. */
  function SplitOnce<T(==)>(s: seq<T>, sep: seq<T>): (r: seq<seq<T>>)
    requires sep != []
    ensures 1 <= |r| <= 2
    ensures |r| == 1 <==> !Contains(s, sep)
    ensures |r| == 2 ==> r[0] + sep + r[1] == s && !Contains(r[0], sep)
  {
    var i := Find(s, sep);
    if i == -1 then [s]
    else
      assert s == s[..i] + sep + s[i + |sep|..];
      PrefixBeforeFind(s, sep);
      [s[..i], s[i + |sep|..]]
  }

  // ---------------------------------------------------------------------------
  // Python slicing s[a:b] with negative and out-of-range indices

  function Clamp(i: int, n: nat): (r: nat)
    ensures r <= n
  {
    if i < 0 then (if n + i < 0 then 0 else n + i) else if i > n then n else i
  }

  /** `s[a:b]`: a negative index counts from the end; indices are clamped to the text. */
  function PySlice<T>(s: seq<T>, a: int, b: int): (r: seq<T>)
    ensures 0 <= a <= b <= |s| ==> r == s[a..b]
    ensures |r| <= |s|
  {
    var lo, hi := Clamp(a, |s|), Clamp(b, |s|);
    if lo < hi then s[lo..hi] else []
  }

  // ---------------------------------------------------------------------------
  // str.strip()

  /** The characters Python's `str.isspace` accepts. */
  predicate IsSpace(c: char) {
    || c == ' ' || ('\t' <= c <= '\r') || ('\U{1C}' <= c <= '\U{1F}')
    || c == '\U{85}' || c == '\U{A0}' || c == '\U{1680}'
    || ('\U{2000}' <= c <= '\U{200A}') || c == '\U{2028}' || c == '\U{2029}'
    || c == '\U{202F}' || c == '\U{205F}' || c == '\U{3000}'
  }

  function StripLeft(s: string): (r: string)
    ensures r == [] || !IsSpace(r[0])
    ensures exists k :: 0 <= k <= |s| && r == s[k..] && forall m :: 0 <= m < k ==> IsSpace(s[m])
  {
    if s == [] || !IsSpace(s[0]) then (assert s == s[0..]; s)
    else
      var r := StripLeft(s[1..]);
      var k :| 0 <= k <= |s| - 1 && r == s[1..][k..] && forall m :: 0 <= m < k ==> IsSpace(s[1..][m]);
      assert r == s[k + 1..];
      assert forall m :: 0 <= m < k + 1 ==> IsSpace(s[m]) by {
        forall m | 0 <= m < k + 1 ensures IsSpace(s[m]) {
          if m > 0 { assert s[m] == s[1..][m - 1]; }
        }
      }
      r
  }

  function StripRight(s: string): (r: string)
    ensures r == [] || !IsSpace(r[|r| - 1])
    ensures StartsWith(s, r)
    ensures forall m :: |r| <= m < |s| ==> IsSpace(s[m])
  {
    if s == [] || !IsSpace(s[|s| - 1]) then s
    else StripRight(s[..|s| - 1])
  }

  /** Every character of `s` from `i` to `j` is whitespace. */
  predicate AllSpace(s: string, i: int, j: int)
    requires 0 <= i <= j <= |s|
  {
    forall m :: i <= m < j ==> IsSpace(s[m])
  }

  /** `s.strip()`: leading and trailing whitespace removed, the middle untouched. */
  function Strip(s: string): (r: string)
    ensures r == [] || (!IsSpace(r[0]) && !IsSpace(r[|r| - 1]))
    ensures exists i, j :: 0 <= i <= j <= |s| && r == s[i..j] && AllSpace(s, 0, i) && AllSpace(s, j, |s|)
  {
    var l := StripLeft(s);
    var r := StripRight(l);
    assert r != [] ==> l[0] == r[0];
    StripFrame(s, l, r);
    r
  }

  lemma StripFrame(s: string, l: string, r: string)
    requires exists k :: 0 <= k <= |s| && l == s[k..] && forall m :: 0 <= m < k ==> IsSpace(s[m])
    requires StartsWith(l, r) && forall m :: |r| <= m < |l| ==> IsSpace(l[m])
    ensures exists i, j :: 0 <= i <= j <= |s| && r == s[i..j] && AllSpace(s, 0, i) && AllSpace(s, j, |s|)
  {
    var k :| 0 <= k <= |s| && l == s[k..] && forall m :: 0 <= m < k ==> IsSpace(s[m]);
    var j := k + |r|;
    assert r == s[k..j];
    forall m | j <= m < |s| ensures IsSpace(s[m]) {
      assert s[m] == l[m - k];
    }
    assert AllSpace(s, 0, k) && AllSpace(s, j, |s|);
  }

  // ---------------------------------------------------------------------------
  // str(n) for a non-negative integer, and its inverse on digit strings

  function DigitChar(d: nat): (c: char)
    requires d < 10
    ensures '0' <= c <= '9'
  {
    ['0', '1', '2', '3', '4', '5', '6', '7', '8', '9'][d]
  }

  /** `str(n)`: decimal digits, most significant first, no leading zero. */
  function NatToString(n: nat): (r: string)
    ensures |r| >= 1
    ensures forall i :: 0 <= i < |r| ==> '0' <= r[i] <= '9'
    ensures r[0] == '0' <==> n == 0
    decreases n
  {
    if n < 10 then [DigitChar(n)] else NatToString(n / 10) + [DigitChar(n % 10)]
  }

  /** The value of a string of decimal digits. */
  function DigitsValue(s: string): nat
    requires forall i :: 0 <= i < |s| ==> '0' <= s[i] <= '9'
  {
    if s == [] then 0 else 10 * DigitsValue(s[..|s| - 1]) + ((s[|s| - 1] as int) - ('0' as int))
  }

  /** Reading back what `str(n)` wrote gives `n`. */
  lemma {:induction false} NatToStringRoundTrip(n: nat)
    ensures DigitsValue(NatToString(n)) == n
    decreases n
  {
    var r := NatToString(n);
    if n >= 10 {
      NatToStringRoundTrip(n / 10);
      assert r[..|r| - 1] == NatToString(n / 10);
    }
  }

  /** Distinct numbers print differently. */
  lemma NatToStringInjective(m: nat, n: nat)
    requires NatToString(m) == NatToString(n)
    ensures m == n
  {
    NatToStringRoundTrip(m);
    NatToStringRoundTrip(n);
  }
  // ---------------------------------------------------------------------------
  // Lists without repeats, and list.remove

  predicate Distinct<T(==)>(s: seq<T>) {
    forall i, j :: 0 <= i < j < |s| ==> s[i] != s[j]
  }

  /** `list.remove(x)`: drop the first occurrence. */
  function RemoveFirst(s: seq<int>, x: int): (r: seq<int>)
    requires x in s
    ensures |r| == |s| - 1
    ensures exists i :: 0 <= i < |s| && s[i] == x && x !in s[..i] && r == s[..i] + s[i + 1..]
  {
    if s[0] == x then
      assert s[1..] == s[..0] + s[0 + 1..];
      s[1..]
    else
      var t := RemoveFirst(s[1..], x);
      RemoveLater(s, x, t);
      [s[0]] + t
  }

  /** Removing from the tail, past a head that is not `x`, removes from the whole list. */
  lemma RemoveLater(s: seq<int>, x: int, t: seq<int>)
    requires |s| >= 1 && s[0] != x
    requires exists i :: 0 <= i < |s[1..]| && s[1..][i] == x && x !in s[1..][..i] && t == s[1..][..i] + s[1..][i + 1..]
    ensures exists i :: 0 <= i < |s| && s[i] == x && x !in s[..i] && [s[0]] + t == s[..i] + s[i + 1..]
  {
    var i :| 0 <= i < |s[1..]| && s[1..][i] == x && x !in s[1..][..i] && t == s[1..][..i] + s[1..][i + 1..];
    var j := i + 1;
    var u := s[1..];
    assert s[..j] == [s[0]] + u[..i];
    assert s[j + 1..] == u[i + 1..];
    assert s[j] == x;
    assert x !in s[..j];
    calc {
      s[..j] + s[j + 1..];
      ([s[0]] + u[..i]) + u[i + 1..];
      [s[0]] + (u[..i] + u[i + 1..]);
    }
  }

  /** Removing a member of a list without repeats leaves exactly the other members, still without repeats. */
  lemma {:induction false} RemoveFirstMembers(s: seq<int>, x: int)
    requires x in s && Distinct(s)
    ensures forall y :: y in RemoveFirst(s, x) <==> y in s && y != x
    ensures Distinct(RemoveFirst(s, x))
  {
    if s[0] != x {
      assert Distinct(s[1..]) by {
        forall i, j | 0 <= i < j < |s[1..]| ensures s[1..][i] != s[1..][j] {
          assert s[1..][i] == s[i + 1] && s[1..][j] == s[j + 1];
        }
      }
      RemoveFirstMembers(s[1..], x);
      var r := RemoveFirst(s, x);
      assert r == [s[0]] + RemoveFirst(s[1..], x);
      forall i, j | 0 <= i < j < |r| ensures r[i] != r[j] {
        if i == 0 {
          assert r[j] in RemoveFirst(s[1..], x);
          var k :| 0 <= k < |s[1..]| && s[1..][k] == r[j];
          assert s[k + 1] == r[j];
        }
      }
    } else {
      forall y | y in s[1..] ensures y != x {
        var j :| 0 <= j < |s[1..]| && s[1..][j] == y;
        assert s[j + 1] == y;
      }
      forall i, j | 0 <= i < j < |s[1..]| ensures s[1..][i] != s[1..][j] {
        assert s[1..][i] == s[i + 1] && s[1..][j] == s[j + 1];
      }
    }
  }

  // ---------------------------------------------------------------------------
  // Splitting text whose pieces cannot hold the separator

  /** `p` lacks the first element of `sep`, so no occurrence of `sep` starts inside `p`. */
  predicate Avoids<T(==)>(p: seq<T>, sep: seq<T>) {
    |sep| > 0 && sep[0] !in p
  }

  lemma AvoidsNoOccurrence<T>(a: seq<T>, sep: seq<T>, b: seq<T>, i: int)
    requires Avoids(a, sep) && 0 <= i < |a|
    ensures !OccursAt(a + b, sep, i)
  {
    if i + |sep| <= |a + b| {
      assert (a + b)[i..i + |sep|][0] == (a + b)[i] == a[i];
    }
  }

  lemma AvoidsNoContains<T>(a: seq<T>, sep: seq<T>)
    requires Avoids(a, sep)
    ensures !Contains(a, sep)
  {
    assert a + [] == a;
    forall i | 0 <= i < |a| ensures !OccursAt(a, sep, i) {
      AvoidsNoOccurrence(a, sep, [], i);
    }
  }

  /** Proof aid: an occurrence with none before it is the one `Find` reports. */
  lemma FindIs<T>(s: seq<T>, p: seq<T>, j: int)
    requires OccursAt(s, p, j) && forall i :: 0 <= i < j ==> !OccursAt(s, p, i)
    ensures Find(s, p) == j
  {
  }

  /** Proof aid: with no occurrence at all, `Find` reports -1. */
  lemma FindNone<T>(s: seq<T>, p: seq<T>)
    requires forall i :: 0 <= i ==> !OccursAt(s, p, i)
    ensures Find(s, p) == -1
  {
  }

  /** In `a + sep + b`, when `a` avoids `sep`, the first occurrence of `sep` is right after `a`. */
  lemma FindAfter<T>(a: seq<T>, sep: seq<T>, b: seq<T>)
    requires Avoids(a, sep)
    ensures Find(a + sep + b, sep) == |a|
  {
    var s := a + sep + b;
    assert s[|a|..|a| + |sep|] == sep;
    assert OccursAt(s, sep, |a|);
    forall i | 0 <= i < |a| ensures !OccursAt(s, sep, i) {
      assert s == a + (sep + b);
      AvoidsNoOccurrence(a, sep, sep + b, i);
    }
  }

  /** Splitting `a + sep + b`, when `a` avoids `sep`, cuts `a` off first. */
  lemma SplitAt<T>(a: seq<T>, sep: seq<T>, b: seq<T>)
    requires Avoids(a, sep)
    ensures Split(a + sep + b, sep) == [a] + Split(b, sep)
  {
    FindAfter(a, sep, b);
    var s := a + sep + b;
    assert s[..|a|] == a;
    assert s[|a| + |sep|..] == b;
  }

  /** Joining pieces that avoid the separator, then splitting, gives the pieces back. */
  lemma {:induction false} SplitJoin<T>(pieces: seq<seq<T>>, sep: seq<T>)
    requires sep != [] && |pieces| >= 1
    requires forall i :: 0 <= i < |pieces| ==> Avoids(pieces[i], sep)
    ensures Split(Join(pieces, sep), sep) == pieces
    decreases |pieces|
  {
    assert Avoids(pieces[0], sep);
    if |pieces| == 1 {
      AvoidsNoContains(pieces[0], sep);
      SplitNoSep(pieces[0], sep);
    } else {
      var rest := pieces[1..];
      forall i | 0 <= i < |rest| ensures Avoids(rest[i], sep) {
        assert rest[i] == pieces[i + 1];
      }
      SplitJoin(rest, sep);
      SplitJoinCons(pieces[0], rest, sep);
      assert [pieces[0]] + rest == pieces;
    }
  }

  /** One more piece that avoids the separator, in front of pieces that split back, splits back too. */
  lemma SplitJoinCons<T>(p: seq<T>, rest: seq<seq<T>>, sep: seq<T>)
    requires Avoids(p, sep) && |rest| >= 1 && Split(Join(rest, sep), sep) == rest
    ensures Split(Join([p] + rest, sep), sep) == [p] + rest
  {
    var pieces := [p] + rest;
    assert pieces[0] == p && pieces[1..] == rest;
    assert Join(pieces, sep) == p + sep + Join(rest, sep);
    SplitAt(p, sep, Join(rest, sep));
  }

  /** Joining one more piece adds the separator and the piece, or just the piece to an empty list. */
  lemma {:induction false} JoinSnoc<T>(pieces: seq<seq<T>>, sep: seq<T>, x: seq<T>)
    ensures Join(pieces + [x], sep) == if pieces == [] then x else Join(pieces, sep) + sep + x
    decreases |pieces|
  {
    if |pieces| > 1 {
      JoinSnoc(pieces[1..], sep, x);
      assert (pieces + [x])[1..] == pieces[1..] + [x];
    } else if |pieces| == 1 {
      assert (pieces + [x])[1..] == [x];
    } else {
      assert pieces + [x] == [x];
    }
  }

  /** A join starts with its first piece and ends with its last. */
  lemma {:induction false} JoinBounds<T>(pieces: seq<seq<T>>, sep: seq<T>)
    requires |pieces| >= 1
    ensures StartsWith(Join(pieces, sep), pieces[0])
    ensures EndsWith(Join(pieces, sep), pieces[|pieces| - 1])
    decreases |pieces|
  {
    if |pieces| > 1 {
      JoinBounds(pieces[1..], sep);
      var j := Join(pieces, sep);
      var rest := Join(pieces[1..], sep);
      assert j == pieces[0] + (sep + rest);
      assert j[..|pieces[0]|] == pieces[0];
      assert j[|j| - |rest|..] == rest;
      assert rest[|rest| - |pieces[|pieces| - 1]|..] == j[|j| - |pieces[|pieces| - 1]|..];
    }
  }

  /** An element found neither in the pieces nor in the separator is not in their join. */
  lemma {:induction false} JoinFree<T>(pieces: seq<seq<T>>, sep: seq<T>, c: T)
    requires c !in sep
    requires forall i :: 0 <= i < |pieces| ==> c !in pieces[i]
    ensures c !in Join(pieces, sep)
    decreases |pieces|
  {
    if |pieces| > 1 {
      JoinFree(pieces[1..], sep, c);
    }
  }

  // ---------------------------------------------------------------------------
  // int(s)

  predicate IsDigits(s: string) {
    |s| >= 1 && forall i :: 0 <= i < |s| ==> '0' <= s[i] <= '9'
  }

  /**
   * `int(s)` for text made of an optional sign and ASCII decimal digits;
   * `None` stands for the `ValueError` Python raises on anything else.
   */
  function ParseInt(s: string): (r: Option<int>)
    ensures r.Some? <==> IsDigits(s) || (|s| >= 1 && (s[0] == '-' || s[0] == '+') && IsDigits(s[1..]))
  {
    if IsDigits(s) then Some(DigitsValue(s))
    else if |s| >= 1 && s[0] == '-' && IsDigits(s[1..]) then (var v: int := DigitsValue(s[1..]); Some(-v))
    else if |s| >= 1 && s[0] == '+' && IsDigits(s[1..]) then Some(DigitsValue(s[1..]))
    else None
  }

  /** `int(str(n)) == n`. */
  lemma ParseIntOfNat(n: nat)
    ensures ParseInt(NatToString(n)) == Some(n)
  {
    NatToStringRoundTrip(n);
  }
}
