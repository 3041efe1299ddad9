/**
 * PHP's strtr(string, array): replacement driven by a table of keys. At each
 * position the longest key that matches is replaced by its value and scanning
 * resumes after the key, so replaced text is never scanned again; where no key
 * matches, one symbol is copied. Empty keys are ignored.
 */
module StrTr {

  /**
   * The length of the longest non-empty key of `m` that is a prefix of `s` and is
   * at most `bound` long, or 0 if there is none.
   */
  function LongestKey<T(==)>(m: map<seq<T>, seq<T>>, s: seq<T>, bound: nat): (n: nat)
    requires bound <= |s|
    ensures n <= bound
    ensures n > 0 ==> s[..n] in m
    ensures forall k :: 0 < k <= bound && s[..k] in m ==> k <= n
    decreases bound
  {
    if bound == 0 then 0
    else if s[..bound] in m then bound
    else LongestKey(m, s, bound - 1)
  }

  /** strtr($s, $m) */
  function StrTr<T(==)>(s: seq<T>, m: map<seq<T>, seq<T>>): (r: seq<T>)
    decreases |s|
  {
    if s == [] then []
    else
      var n := LongestKey(m, s, |s|);
      if n == 0 then [s[0]] + StrTr(s[1..], m)
      else m[s[..n]] + StrTr(s[n..], m)
  }

  /** A table whose values are as long as their keys keeps the length of the string. */
  lemma {:induction false} StrTrKeepsLength<T>(s: seq<T>, m: map<seq<T>, seq<T>>)
    requires forall k :: k in m ==> |m[k]| == |k|
    ensures |StrTr(s, m)| == |s|
    decreases |s|
  {
    if s != [] {
      var n := LongestKey(m, s, |s|);
      if n == 0 {
        StrTrKeepsLength(s[1..], m);
      } else {
        StrTrKeepsLength(s[n..], m);
      }
    }
  }

  /** Key `k` occurs in `s` at position `j`. */
  ghost predicate OccursAt<T>(k: seq<T>, s: seq<T>, j: nat) {
    j + |k| <= |s| && s[j..j + |k|] == k
  }

  /** No non-empty key of `m` occurs anywhere in `s`. */
  ghost predicate KeyFree<T>(s: seq<T>, m: map<seq<T>, seq<T>>) {
    forall k, j: nat :: k in m && k != [] ==> !OccursAt(k, s, j)
  }

  /**
   * `a` holds every symbol of every key and no symbol of any value, and no value
   * is empty: a table whose output can never form a key.
   */
  ghost predicate SeparatesKeys<T>(m: map<seq<T>, seq<T>>, a: set<T>) {
    forall k :: k in m ==>
      && m[k] != []
      && (forall i :: 0 <= i < |k| ==> k[i] in a)
      && (forall i :: 0 <= i < |m[k]| ==> m[k][i] !in a)
  }

  /**
   * Longest key first: when `k` is the longest key that is a prefix of `s`, it is
   * replaced and the rest of `s` is processed from the end of `k` on.
   */
  lemma LongestKeyWins<T>(s: seq<T>, m: map<seq<T>, seq<T>>, k: seq<T>)
    requires k in m && k != [] && |k| <= |s| && s[..|k|] == k
    requires forall n :: |k| < n <= |s| ==> s[..n] !in m
    ensures StrTr(s, m) == m[k] + StrTr(s[|k|..], m)
  {
    var n := LongestKey(m, s, |s|);
    assert n == |k|;
  }

  /** Where no key is a prefix of `s`, its first symbol is copied unchanged. */
  lemma NoKeyCopies<T>(s: seq<T>, m: map<seq<T>, seq<T>>)
    requires s != []
    requires forall n :: 0 < n <= |s| ==> s[..n] !in m
    ensures StrTr(s, m) == [s[0]] + StrTr(s[1..], m)
  {
  }

  /** A string in which no key occurs comes back unchanged. */
  lemma {:induction false} KeyFreeUnchanged<T>(s: seq<T>, m: map<seq<T>, seq<T>>)
    requires KeyFree(s, m)
    ensures StrTr(s, m) == s
    decreases |s|
  {
    if s != [] {
      forall n | 0 < n <= |s| ensures s[..n] !in m {
        assert s[0..n] == s[..n];
        assert OccursAt(s[..n], s, 0);
      }
      forall k, j: nat | k in m && k != [] ensures !OccursAt(k, s[1..], j) {
        assert !OccursAt(k, s, j + 1);
        if j + |k| <= |s[1..]| {
          assert s[1..][j..j + |k|] == s[j + 1..j + 1 + |k|];
        }
      }
      KeyFreeUnchanged(s[1..], m);
    }
  }

  /**
   * Under SeparatesKeys, an output prefix made only of key symbols was copied:
   * it is the same prefix of the input.
   */
  lemma {:induction false} CopiedPrefix<T>(t: seq<T>, m: map<seq<T>, seq<T>>, a: set<T>, n: nat)
    requires SeparatesKeys(m, a)
    requires n <= |StrTr(t, m)|
    ensures (forall i :: 0 <= i < n ==> StrTr(t, m)[i] in a) ==>
              n <= |t| && StrTr(t, m)[..n] == t[..n]
    decreases |t|
  {
    if n > 0 {
      var out := StrTr(t, m);
      var len := LongestKey(m, t, |t|);
      if len == 0 {
        var rest := StrTr(t[1..], m);
        assert out == [t[0]] + rest;
        CopiedPrefix(t[1..], m, a, n - 1);
        if forall i :: 0 <= i < n ==> out[i] in a {
          forall i | 0 <= i < n - 1 ensures rest[i] in a {
            assert out[i + 1] == rest[i];
          }
          assert out[..n] == [t[0]] + rest[..n - 1];
        }
      } else {
        var v := m[t[..len]];
        assert out == v + StrTr(t[len..], m);
        assert out[0] == v[0] && v[0] !in a;
      }
    }
  }

  /** Under SeparatesKeys, no key of the table remains in the output of strtr. */
  lemma {:induction false} NoKeyRemains<T>(s: seq<T>, m: map<seq<T>, seq<T>>, a: set<T>)
    requires SeparatesKeys(m, a)
    ensures KeyFree(StrTr(s, m), m)
    decreases |s|
  {
    if s != [] {
      var out := StrTr(s, m);
      var len := LongestKey(m, s, |s|);
      var used := if len == 0 then 1 else len;
      var head := if len == 0 then [s[0]] else m[s[..len]];
      var rest := StrTr(s[used..], m);
      assert out == head + rest;
      NoKeyRemains(s[used..], m, a);
      forall k, j: nat | k in m && k != [] ensures !OccursAt(k, out, j) {
        if j >= |head| {
          assert !OccursAt(k, rest, j - |head|);
          if j + |k| <= |out| {
            assert out[j..j + |k|] == rest[j - |head|..j - |head| + |k|];
          }
        } else if len > 0 {
          if j + |k| <= |out| {
            assert out[j..j + |k|][0] == head[j] && head[j] !in a;
            assert k[0] in a;
          }
        } else if j + |k| <= |out| {
          assert j == 0;
          if forall i :: 0 <= i < |k| ==> out[i] in a {
            CopiedPrefix(s, m, a, |k|);
            assert s[..|k|] !in m;
          } else {
            var i :| 0 <= i < |k| && out[i] !in a;
            assert out[..|k|][i] == out[i];
          }
        }
      }
    }
  }

  /** Replacing symbol by symbol: what strtr does when every key is a single symbol. */
  function Charwise<T(==)>(s: seq<T>, m: map<seq<T>, seq<T>>): (r: seq<T>)
    decreases |s|
  {
    if s == [] then []
    else (if [s[0]] in m then m[[s[0]]] else [s[0]]) + Charwise(s[1..], m)
  }

  /** With one-symbol keys only, strtr is a symbol-by-symbol replacement. */
  lemma {:induction false} SingleSymbolKeys<T>(s: seq<T>, m: map<seq<T>, seq<T>>)
    requires forall k :: k in m ==> |k| == 1
    ensures StrTr(s, m) == Charwise(s, m)
    decreases |s|
  {
    if s != [] {
      var n := LongestKey(m, s, |s|);
      assert s[..1] == [s[0]];
      assert n > 0 ==> |s[..n]| == 1;
      SingleSymbolKeys(s[1..], m);
      if n == 1 {
        assert [s[0]] in m && s[1..] == s[n..];
      }
    }
  }
}
