/** The flag-merge algorithm behind STORE FLAGS / +FLAGS / -FLAGS (section
    6.4.6 of RFC 3501): `Merge` says on sequences what the result is,
    `UpdateFlags` computes it in place over the storage of the current list. */
module BackendUtil {
  import opened Imap

  /** `s` with every element that occurs in `drop` removed, order kept. */
  function Without<T(==)>(s: seq<T>, drop: seq<T>): seq<T>
  {
    if s == [] then []
    else Without(s[..|s| - 1], drop) + (if s[|s| - 1] in drop then [] else [s[|s| - 1]])
  }

  /** The new flag list of a message whose flags are `current` after the
      operation `op` with operand `flags`. */
  function Merge(current: seq<Flag>, op: FlagsOp, flags: seq<Flag>): seq<Flag>
  {
    if op == SetFlags then (if Recent in current then [Recent] else []) + flags
    else if op == AddFlags then current + Without(flags, current)
    else if op == RemoveFlags then Without(current, flags)
    else current
  }

  predicate NoDuplicates<T(==)>(s: seq<T>)
  {
    forall i, j :: 0 <= i < j < |s| ==> s[i] != s[j]
  }

  // ---------------------------------------------------------------------------
  // Properties of the filter

  /** Each flag occurs in the filtered list as often as in `s`, unless it is
      dropped, and then not at all. */
  lemma {:induction false} WithoutCount<T>(s: seq<T>, drop: seq<T>, x: T)
    ensures multiset(Without(s, drop))[x] == if x in drop then 0 else multiset(s)[x]
  {
    if s != [] {
      WithoutCount(s[..|s| - 1], drop, x);
      MultisetSnoc(s);
    }
  }

  lemma MultisetSnoc<T>(s: seq<T>)
    requires s != []
    ensures multiset(s) == multiset(s[..|s| - 1]) + multiset{s[|s| - 1]}
  {
    assert s == s[..|s| - 1] + [s[|s| - 1]];
  }

  /** One more element of `s` filtered. */
  lemma {:induction false} WithoutStep<T>(s: seq<T>, j: nat, drop: seq<T>)
    requires j < |s|
    ensures Without(s[..j + 1], drop) == Without(s[..j], drop) + (if s[j] in drop then [] else [s[j]])
  {
    assert s[..j + 1][..j] == s[..j];
  }

  lemma {:induction false} WithoutMembers<T>(s: seq<T>, drop: seq<T>)
    ensures forall x :: x in Without(s, drop) <==> x in s && x !in drop
  {
    forall x ensures x in Without(s, drop) <==> x in s && x !in drop {
      WithoutCount(s, drop, x);
      assert x in Without(s, drop) <==> multiset(Without(s, drop))[x] > 0;
      assert x in s <==> multiset(s)[x] > 0;
    }
  }

  lemma {:induction false} WithoutConcat<T>(a: seq<T>, b: seq<T>, drop: seq<T>)
    ensures Without(a + b, drop) == Without(a, drop) + Without(b, drop)
  {
    if b == [] {
      assert a + b == a;
    } else {
      var init := b[..|b| - 1];
      assert (a + b)[..|a + b| - 1] == a + init;
      WithoutConcat(a, init, drop);
    }
  }

  lemma {:induction false} WithoutNothingDropped<T>(s: seq<T>, drop: seq<T>)
    requires forall x :: x in s ==> x !in drop
    ensures Without(s, drop) == s
  {
    if s != [] {
      var init := s[..|s| - 1];
      assert forall x :: x in init ==> x in s;
      WithoutNothingDropped(init, drop);
      assert s == init + [s[|s| - 1]];
    }
  }

  lemma {:induction false} WithoutAllDropped<T>(s: seq<T>, drop: seq<T>)
    requires forall x :: x in s ==> x in drop
    ensures Without(s, drop) == []
  {
    if s != [] {
      var init := s[..|s| - 1];
      assert forall x :: x in init ==> x in s;
      WithoutAllDropped(init, drop);
    }
  }

  lemma {:induction false} WithoutNoDuplicates<T>(s: seq<T>, drop: seq<T>)
    requires NoDuplicates(s)
    ensures NoDuplicates(Without(s, drop))
  {
    if s != [] {
      var init, last := s[..|s| - 1], s[|s| - 1];
      WithoutNoDuplicates(init, drop);
      WithoutMembers(init, drop);
      assert last !in init by {
        forall k | 0 <= k < |init| ensures init[k] != last {
          assert init[k] == s[k];
        }
      }
      var w := Without(init, drop);
      if last !in drop {
        assert forall k :: 0 <= k < |w| ==> w[k] != last by {
          forall k | 0 <= k < |w| ensures w[k] != last {
            assert w[k] in w;
          }
        }
      }
    }
  }

  // ---------------------------------------------------------------------------
  // Properties of the merge

  /** SET: the result ends with the operand list and starts with one
      `\Recent` exactly when the current list held it. */
  lemma SetKeepsRecent(current: seq<Flag>, flags: seq<Flag>)
    ensures var r := Merge(current, SetFlags, flags);
      && r[|r| - |flags|..] == flags
      && |r| == |flags| + (if Recent in current then 1 else 0)
      && (Recent in current ==> r[0] == Recent)
      && (Recent in r <==> Recent in current || Recent in flags)
  {
  }

  /** ADD: the current list is kept as a prefix and is followed by the operand
      flags it lacked, in operand order. */
  lemma {:induction false} AddAppendsMissing(current: seq<Flag>, flags: seq<Flag>)
    ensures var r := Merge(current, AddFlags, flags);
      && r[..|current|] == current
      && r[|current|..] == Without(flags, current)
      && forall x :: x in r[|current|..] <==> x in flags && x !in current
  {
    WithoutMembers(flags, current);
  }

  /** ADD: every operand flag is present afterwards. */
  lemma {:induction false} AddContainsOperands(current: seq<Flag>, flags: seq<Flag>)
    ensures forall x :: x in Merge(current, AddFlags, flags) <==> x in current || x in flags
  {
    WithoutMembers(flags, current);
  }

  /** ADD applied twice with the same operand changes nothing more. */
  lemma {:induction false} AddIdempotent(current: seq<Flag>, flags: seq<Flag>)
    ensures var r := Merge(current, AddFlags, flags);
      Merge(r, AddFlags, flags) == r
  {
    var r := Merge(current, AddFlags, flags);
    AddContainsOperands(current, flags);
    WithoutAllDropped(flags, r);
    assert r + [] == r;
  }

  /** ADD on duplicate-free lists gives a duplicate-free list holding exactly
      the union of both. */
  lemma {:induction false} AddUnion(current: seq<Flag>, flags: seq<Flag>)
    requires NoDuplicates(current) && NoDuplicates(flags)
    ensures var r := Merge(current, AddFlags, flags);
      && NoDuplicates(r)
      && forall x :: x in r <==> x in current || x in flags
  {
    var w := Without(flags, current);
    WithoutNoDuplicates(flags, current);
    WithoutMembers(flags, current);
    AddContainsOperands(current, flags);
    var r := current + w;
    forall i, j | 0 <= i < j < |r| ensures r[i] != r[j] {
      if j >= |current| && i < |current| {
        assert r[j] == w[j - |current|] && r[j] in w;
        assert r[i] in current;
      } else if i >= |current| {
        assert r[i] == w[i - |current|] && r[j] == w[j - |current|];
      }
    }
  }

  /** REMOVE: the current list filtered, order kept; every occurrence of an
      operand flag is gone and every other flag keeps its count. */
  lemma {:induction false} RemoveDropsOperands(current: seq<Flag>, flags: seq<Flag>)
    ensures var r := Merge(current, RemoveFlags, flags);
      && (forall x :: x in r <==> x in current && x !in flags)
      && (forall x :: x !in flags ==> multiset(r)[x] == multiset(current)[x])
  {
    WithoutMembers(current, flags);
    forall x | x !in flags ensures multiset(Without(current, flags))[x] == multiset(current)[x] {
      WithoutCount(current, flags, x);
    }
  }

  /** REMOVE applied twice with the same operand changes nothing more. */
  lemma {:induction false} RemoveIdempotent(current: seq<Flag>, flags: seq<Flag>)
    ensures var r := Merge(current, RemoveFlags, flags);
      Merge(r, RemoveFlags, flags) == r
  {
    var r := Without(current, flags);
    WithoutMembers(current, flags);
    WithoutNothingDropped(r, flags);
  }

  /** Removing what was just added gives what removing alone gives. */
  lemma {:induction false} AddThenRemove(current: seq<Flag>, flags: seq<Flag>)
    ensures Merge(Merge(current, AddFlags, flags), RemoveFlags, flags)
         == Merge(current, RemoveFlags, flags)
  {
    var w := Without(flags, current);
    WithoutConcat(current, w, flags);
    WithoutMembers(flags, current);
    WithoutAllDropped(w, flags);
    assert Without(current, flags) + [] == Without(current, flags);
  }

  // ---------------------------------------------------------------------------
  // The in-place algorithm

  /** Linear scan: whether `x` occurs in `s`. */
  method Contains(s: seq<Flag>, x: Flag) returns (found: bool)
    ensures found <==> x in s
  {
    found := false;
    for i := 0 to |s|
      invariant !found && x !in s[..i]
    {
      if s[i] == x {
        found := true;
        return;
      }
      assert s[..i + 1] == s[..i] + [s[i]];
    }
    assert s[..|s|] == s;
  }

  /** Go's `append` of one flag to the slice `a[..n]`: in place while there
      is capacity, otherwise into fresh storage of twice the size plus one. */
  method Append(a: array<Flag>, n: nat, x: Flag) returns (b: array<Flag>, m: nat)
    requires n <= a.Length
    modifies a
    ensures m == n + 1 && m <= b.Length
    ensures b[..m] == old(a[..n]) + [x]
    ensures n < a.Length ==> b == a && b[m..] == old(a[m..])
    ensures n == a.Length ==> fresh(b) && a[..] == old(a[..])
  {
    if n < a.Length {
      a[n] := x;
      b, m := a, n + 1;
    } else {
      b := new Flag[2 * a.Length + 1];
      forall i | 0 <= i < n {
        b[i] := a[i];
      }
      b[n] := x;
      m := n + 1;
    }
  }

  /** Go's `append` of several elements to the slice `a[..n]`: all written
      in place when they fit, otherwise all copied into fresh storage and
      nothing written into `a`. */
  method AppendAll(a: array<Flag>, n: nat, xs: seq<Flag>) returns (b: array<Flag>, m: nat)
    requires n <= a.Length
    modifies a
    ensures m == n + |xs| && m <= b.Length
    ensures b[..m] == old(a[..n]) + xs
    ensures m <= a.Length ==> b == a && b[m..] == old(a[m..])
    ensures m > a.Length ==> fresh(b) && a[..] == old(a[..])
  {
    m := n + |xs|;
    if m <= a.Length {
      forall i | n <= i < m {
        a[i] := xs[i - n];
      }
      b := a;
    } else {
      b := new Flag[2 * m];
      forall i | 0 <= i < n {
        b[i] := a[i];
      }
      forall i | n <= i < m {
        b[i] := xs[i - n];
      }
    }
  }

  /** The flag update on the slice `current[..n]`. The result is the slice
      `out[..m]`, where `out` is `current` itself unless an append outgrew it.
      The operand is a value and is therefore never changed. */
  method UpdateFlags(current: array<Flag>, n: nat, op: FlagsOp, flags: seq<Flag>)
    returns (out: array<Flag>, m: nat)
    requires n <= current.Length
    modifies current
    ensures m <= out.Length
    ensures out[..m] == Merge(old(current[..n]), op, flags)
    ensures out == current || fresh(out)
    ensures op == SetFlags ==> (out == current <==> m <= current.Length)
    ensures op == SetFlags && m > current.Length ==>
              current[..] == if Recent in old(current[..n]) then old(current[..])[0 := Recent] else old(current[..])
    ensures op == AddFlags ==> (out == current <==> m <= current.Length)
    ensures op == SetFlags && m <= current.Length ==> current[m..] == old(current[m..])
    ensures op == AddFlags ==> current[..n] == old(current[..n])
    ensures op == AddFlags && m <= current.Length ==> current[m..] == old(current[m..])
    ensures op == RemoveFlags ==> out == current && current[m..] == old(current[m..])
    ensures op != SetFlags && op != AddFlags && op != RemoveFlags ==>
              out == current && m == n && current[..] == old(current[..])
  {
    if op == SetFlags {
      out, m := SetInPlace(current, n, flags);
    } else if op == AddFlags {
      out, m := AddInPlace(current, n, flags);
    } else if op == RemoveFlags {
      out, m := RemoveInPlace(current, n, flags);
    } else {
      // unknown operation: current flags unchanged
      out, m := current, n;
    }
  }

  /** The SET branch: keep `\Recent`, then append the operand. */
  method SetInPlace(current: array<Flag>, n: nat, flags: seq<Flag>)
    returns (out: array<Flag>, m: nat)
    requires n <= current.Length
    modifies current
    ensures m <= out.Length
    ensures out[..m] == Merge(old(current[..n]), SetFlags, flags)
    ensures out == current || fresh(out)
    ensures out == current <==> m <= current.Length
    ensures m > current.Length ==>
              current[..] == if Recent in old(current[..n]) then old(current[..])[0 := Recent] else old(current[..])
    ensures m <= current.Length ==> current[m..] == old(current[m..])
  {
    ghost var cur := current[..n];
    out, m := current, 0;
    // keep the recent flag
    var i := 0;
    while i < n
      invariant 0 <= i <= n && m == 0 && out == current
      invariant current[..] == old(current[..])
      invariant Recent !in cur[..i]
    {
      if current[i] == Recent {
        out, m := Append(out, 0, Recent);
        assert cur[i] == Recent;
        break;
      }
      assert cur[..i + 1] == cur[..i] + [cur[i]];
      i := i + 1;
    }
    assert i == n ==> cur[..i] == cur;
    assert out == current && out[..m] == if Recent in cur then [Recent] else [];
    assert current[..] == if Recent in cur then old(current[..])[0 := Recent] else old(current[..]);
    // append the new flags, in one append
    out, m := AppendAll(out, m, flags);
  }

  /** The ADD branch: keep the current flags and append each operand flag
      that the scan of the current flags does not find. */
  method AddInPlace(current: array<Flag>, n: nat, flags: seq<Flag>)
    returns (out: array<Flag>, m: nat)
    requires n <= current.Length
    modifies current
    ensures m <= out.Length
    ensures out[..m] == Merge(old(current[..n]), AddFlags, flags)
    ensures out == current || fresh(out)
    ensures out == current <==> m <= current.Length
    ensures current[..n] == old(current[..n])
    ensures m <= current.Length ==> current[m..] == old(current[m..])
  {
    ghost var cur := current[..n];
    out, m := current, n;
    assert out[..m] == cur + Without([], cur);
    for j := 0 to |flags|
      invariant n <= m <= out.Length && (out == current || fresh(out))
      invariant out == current <==> m <= current.Length
      invariant current[..n] == cur
      invariant m <= current.Length ==> current[m..] == old(current[m..])
      invariant out[..m] == cur + Without(flags[..j], cur)
    {
      WithoutStep(flags, j, cur);
      out, m := AddOne(current, n, out, m, flags[j]);
    }
    assert flags[..|flags|] == flags;
  }

  /** One turn of the ADD loop: `x` is appended to the slice `out[..m]`
      unless the scan of `current[..n]` finds it; the appends land at or
      beyond `n`, so `current[..n]` is left as it was. */
  method AddOne(current: array<Flag>, n: nat, out: array<Flag>, m: nat, x: Flag)
    returns (out': array<Flag>, m': nat)
    requires n <= current.Length && n <= m <= out.Length
    modifies out
    ensures n <= m' <= out'.Length
    ensures out'[..m'] == old(out[..m]) + (if x in old(current[..n]) then [] else [x])
    ensures current[..n] == old(current[..n])
    ensures out' == out || fresh(out')
    ensures m' >= m
    ensures out' == current <==> out == current && m' <= current.Length
    ensures out == current && m' <= current.Length ==> current[m'..] == old(current[m'..])
  {
    var found := Contains(current[..n], x);
    out', m' := out, m;
    if !found {
      out', m' := Append(out, m, x);
      assert out == current ==> out'[..n] == old(out[..m])[..n];
    }
  }

  /** The REMOVE branch: filter the current flags into their own storage;
      the write position never passes the read position. */
  method RemoveInPlace(current: array<Flag>, n: nat, flags: seq<Flag>)
    returns (out: array<Flag>, m: nat)
    requires n <= current.Length
    modifies current
    ensures m <= out.Length
    ensures out[..m] == Merge(old(current[..n]), RemoveFlags, flags)
    ensures out == current
    ensures current[m..] == old(current[m..])
  {
    ghost var cur := current[..n];
    out, m := current, 0;
    for i := 0 to n
      invariant m <= i && out == current
      invariant current[..m] == Without(cur[..i], flags)
      invariant forall k :: m <= k < current.Length ==> current[k] == old(current[k])
    {
      var flag := current[i];
      var remove := Contains(flags, flag);
      WithoutStep(cur, i, flags);
      if !remove {
        out, m := Append(out, m, flag);
      }
    }
    assert cur[..n] == cur;
  }

  /** The flag update on a message's flag list, run over storage holding it. */
  method UpdateFlagList(current: seq<Flag>, op: FlagsOp, flags: seq<Flag>) returns (r: seq<Flag>)
    ensures r == Merge(current, op, flags)
  {
    var a := new Flag[|current|](i requires 0 <= i < |current| => current[i]);
    assert a[..|current|] == current;
    var out, m := UpdateFlags(a, |current|, op, flags);
    r := out[..m];
  }
}
