/** String and list helpers shared by the model: substring search, prefix and
    suffix tests, the Kotlin and Java flavours of `split`, `trim`, `take`,
    order-preserving filters and first-occurrence de-duplication.

    Strings are `seq<char>`; a Kotlin string is a sequence of UTF-16 code
    units, and the model treats every code unit as one `char`.
 */
module Text {

  // ---------------------------------------------------------------------
  // Prefix, suffix, substring

  predicate StartsWith(s: string, p: string) {
    |p| <= |s| && s[..|p|] == p
  }

  predicate EndsWith(s: string, p: string) {
    |p| <= |s| && s[|s| - |p|..] == p
  }

  /** `sub` occurs in `s` starting at index `i`. */
  predicate OccursAt(s: string, sub: string, i: int) {
    0 <= i && i + |sub| <= |s| && s[i..i + |sub|] == sub
  }

  /** Substring search (`String.contains`, C `strstr`), defined by scanning
      left to right. */
  predicate Contains(s: string, sub: string)
    decreases |s|
  {
    StartsWith(s, sub) || (|s| > 0 && Contains(s[1..], sub))
  }

  lemma {:induction false} ContainsIffOccurs(s: string, sub: string)
    ensures Contains(s, sub) <==> exists i :: OccursAt(s, sub, i)
    decreases |s|
  {
    if StartsWith(s, sub) {
      assert OccursAt(s, sub, 0);
    } else if |s| == 0 {
    } else {
      ContainsIffOccurs(s[1..], sub);
      if exists i :: OccursAt(s[1..], sub, i) {
        var i :| OccursAt(s[1..], sub, i);
        assert s[1..][i..i + |sub|] == s[i + 1..i + 1 + |sub|];
        assert OccursAt(s, sub, i + 1);
      }
      if exists i :: OccursAt(s, sub, i) {
        var i :| OccursAt(s, sub, i);
        if i == 0 {
          assert false;
        }
        assert s[1..][i - 1..i - 1 + |sub|] == s[i..i + |sub|];
        assert OccursAt(s[1..], sub, i - 1);
      }
    }
  }

  /** Every string contains the empty string (Kotlin: `"abc".contains("")`). */
  lemma ContainsEmpty(s: string)
    ensures Contains(s, "")
  {
    assert StartsWith(s, "");
  }

  lemma ContainsSelf(s: string)
    ensures Contains(s, s)
  {
    assert s[..|s|] == s;
  }

  /** An occurrence at a known index is found by the scan. */
  lemma ContainsAt(s: string, sub: string, i: int)
    requires OccursAt(s, sub, i)
    ensures Contains(s, sub)
  {
    ContainsIffOccurs(s, sub);
  }

  /** Whatever contains a string contains each of its prefixes. */
  lemma ContainsPrefix(s: string, sub: string, p: string)
    requires Contains(s, sub) && StartsWith(sub, p)
    ensures Contains(s, p)
  {
    ContainsIffOccurs(s, sub);
    var i :| OccursAt(s, sub, i);
    assert s[i..i + |p|] == sub[..|p|];
    ContainsAt(s, p, i);
  }

  // ---------------------------------------------------------------------
  // Case-insensitive comparison

  /** Applies a character fold to every character. */
  function MapChars(fold: char -> char, s: string): (r: string)
    ensures |r| == |s|
    ensures forall i :: 0 <= i < |s| ==> r[i] == fold(s[i])
  {
    if |s| == 0 then "" else [fold(s[0])] + MapChars(fold, s[1..])
  }

  /** Kotlin `contains(sub, ignoreCase = true)`. Kotlin treats two characters
      as equal when `lowercase(uppercase(a)) == lowercase(uppercase(b))`, so a
      single fold function (that composition) describes it exactly. */
  predicate ContainsFold(s: string, sub: string, fold: char -> char) {
    Contains(MapChars(fold, s), MapChars(fold, sub))
  }

  lemma ContainsFoldOfContains(s: string, sub: string, fold: char -> char)
    requires Contains(s, sub)
    ensures ContainsFold(s, sub, fold)
  {
    ContainsIffOccurs(s, sub);
    var i :| OccursAt(s, sub, i);
    var fs, fsub := MapChars(fold, s), MapChars(fold, sub);
    assert fs[i..i + |sub|] == fsub;
    assert OccursAt(fs, fsub, i);
    ContainsIffOccurs(fs, fsub);
  }

  // ---------------------------------------------------------------------
  // take, trim, blank

  /** Kotlin `take(n)`: the first `n` characters, or the whole string. */
  function Take(s: string, n: nat): (r: string)
    ensures |r| == if n <= |s| then n else |s|
    ensures StartsWith(s, r)
  {
    if n <= |s| then s[..n] else s
  }

  /** Kotlin `Char.isWhitespace()` on the JVM: Java whitespace or a Unicode
      space separator. */
  predicate IsWhitespace(c: char) {
    ('\U{0009}' <= c <= '\U{000D}') || ('\U{001C}' <= c <= '\U{0020}')
    || c == '\U{00A0}' || c == '\U{1680}' || ('\U{2000}' <= c <= '\U{200A}')
    || c == '\U{2028}' || c == '\U{2029}' || c == '\U{202F}' || c == '\U{205F}'
    || c == '\U{3000}'
  }

  function TrimStart(s: string): (r: string)
    ensures |r| <= |s| && EndsWith(s, r)
    ensures |r| > 0 ==> !IsWhitespace(r[0])
    ensures forall i :: 0 <= i < |s| - |r| ==> IsWhitespace(s[i])
  {
    if |s| > 0 && IsWhitespace(s[0]) then TrimStart(s[1..]) else s
  }

  function TrimEnd(s: string): (r: string)
    ensures |r| <= |s| && StartsWith(s, r)
    ensures |r| > 0 ==> !IsWhitespace(r[|r| - 1])
    ensures forall i :: |r| <= i < |s| ==> IsWhitespace(s[i])
  {
    if |s| > 0 && IsWhitespace(s[|s| - 1]) then TrimEnd(s[..|s| - 1]) else s
  }

  /** Kotlin `trim()`: drops leading and trailing whitespace. */
  function Trim(s: string): (r: string)
  {
    TrimEnd(TrimStart(s))
  }

  /** A string that neither starts nor ends with whitespace is its own trim. */
  lemma TrimKeeps(s: string)
    requires |s| > 0 && !IsWhitespace(s[0]) && !IsWhitespace(s[|s| - 1])
    ensures Trim(s) == s
  {
    assert TrimStart(s) == s;
  }

  lemma TrimShape(s: string)
    ensures var r := Trim(s);
      && |r| <= |s|
      && (|r| > 0 ==> !IsWhitespace(r[0]) && !IsWhitespace(r[|r| - 1]))
      && ((forall i :: 0 <= i < |s| ==> !IsWhitespace(s[i])) ==> r == s)
  {
    var t := TrimStart(s);
    var r := TrimEnd(t);
    if |r| > 0 {
      assert r[0] == t[0];
    }
    if forall i :: 0 <= i < |s| ==> !IsWhitespace(s[i]) {
      assert t == s;
      assert r == t;
    }
  }

  /** Kotlin `isBlank()`. */
  predicate IsBlank(s: string) {
    forall i :: 0 <= i < |s| ==> IsWhitespace(s[i])
  }

  // ---------------------------------------------------------------------
  // Splitting and joining

  /** Kotlin `split(d1, d2, ...)` with single-character delimiters: every
      piece between two delimiter occurrences, empty and trailing pieces
      included. */
  function SplitAny(s: string, delims: set<char>): (r: seq<string>)
    ensures |r| >= 1
    ensures forall k, i :: 0 <= k < |r| && 0 <= i < |r[k]| ==> r[k][i] !in delims
  {
    if |s| == 0 then [""]
    else
      var rest := SplitAny(s[1..], delims);
      if s[0] in delims then [""] + rest
      else [[s[0]] + rest[0]] + rest[1..]
  }

  /** `parts` joined with `sep` between consecutive elements. */
  function Join(parts: seq<string>, sep: string): (r: string)
  {
    if |parts| == 0 then ""
    else if |parts| == 1 then parts[0]
    else parts[0] + sep + Join(parts[1..], sep)
  }

  /** Kotlin `split(",")` (no trailing pieces dropped). */
  function SplitOn(s: string, c: char): (r: seq<string>)
    ensures |r| >= 1
  {
    SplitAny(s, {c})
  }

  /** Splitting on one character and joining back with it gives the input. */
  lemma {:induction false} JoinSplit(s: string, c: char)
    ensures Join(SplitOn(s, c), [c]) == s
    decreases |s|
  {
    if |s| > 0 {
      JoinSplit(s[1..], c);
      var rest := SplitOn(s[1..], c);
      if s[0] == c {
        assert SplitOn(s, c) == [""] + rest;
        assert s == [c] + s[1..];
      } else {
        var r := SplitOn(s, c);
        assert r == [[s[0]] + rest[0]] + rest[1..];
        if |rest| == 1 {
          assert r == [[s[0]] + rest[0]];
        } else {
          assert r[1..] == rest[1..];
        }
      }
    }
  }

  /** Joining comma-free pieces and splitting again gives the pieces back. */
  lemma {:induction false} SplitJoin(parts: seq<string>, c: char)
    requires |parts| >= 1
    requires forall k, i :: 0 <= k < |parts| && 0 <= i < |parts[k]| ==> parts[k][i] != c
    ensures SplitOn(Join(parts, [c]), c) == parts
    decreases |parts|
  {
    if |parts| == 1 {
      NoDelimiterOnePiece(parts[0], c);
    } else {
      SplitJoin(parts[1..], c);
      SplitPrefixPiece(parts[0], Join(parts[1..], [c]), c);
      assert Join(parts, [c]) == parts[0] + ([c] + Join(parts[1..], [c]));
      assert [parts[0]] + parts[1..] == parts;
    }
  }

  lemma {:induction false} NoDelimiterOnePiece(s: string, c: char)
    requires forall i :: 0 <= i < |s| ==> s[i] != c
    ensures SplitOn(s, c) == [s]
    decreases |s|
  {
    if |s| > 0 {
      NoDelimiterOnePiece(s[1..], c);
      assert [s[0]] + s[1..] == s;
    }
  }

  /** A delimiter-free piece followed by the delimiter splits off as one field. */
  lemma {:induction false} SplitPrefixPiece(p: string, t: string, c: char)
    requires forall i :: 0 <= i < |p| ==> p[i] != c
    ensures SplitOn(p + ([c] + t), c) == [p] + SplitOn(t, c)
    decreases |p|
  {
    var s := p + ([c] + t);
    if |p| == 0 {
      assert s == [c] + t;
      assert s[1..] == t;
    } else {
      assert s[1..] == p[1..] + ([c] + t);
      SplitPrefixPiece(p[1..], t, c);
      assert [p[0]] + p[1..] == p;
    }
  }

  /** Kotlin `substringBeforeLast(c)`: the text before the last `c`, or the
      whole string when there is none. */
  function BeforeLast(s: string, c: char): (r: string)
    ensures c !in s ==> r == s
    ensures c in s ==> |r| < |s| && s[..|r|] == r && s[|r|] == c && c !in s[|r| + 1..]
  {
    if |s| == 0 then s
    else if s[|s| - 1] == c then s[..|s| - 1]
    else
      var r := BeforeLast(s[..|s| - 1], c);
      assert c in s ==> c in s[..|s| - 1];
      if c in s[..|s| - 1] then
        assert s[|r| + 1..] == s[..|s| - 1][|r| + 1..] + [s[|s| - 1]];
        r
      else s
  }

  /** Removes empty strings from the end of a list of fields. */
  function DropTrailingEmpty(parts: seq<string>): (r: seq<string>)
    ensures |r| <= |parts| && r == parts[..|r|]
    ensures |r| > 0 ==> r[|r| - 1] != ""
    ensures forall k :: |r| <= k < |parts| ==> parts[k] == ""
  {
    if |parts| == 0 then parts
    else if parts[|parts| - 1] == "" then DropTrailingEmpty(parts[..|parts| - 1])
    else parts
  }

  /** Java `String.split(",")`: the input itself when the delimiter does not
      occur, otherwise the fields with trailing empty fields removed. */
  function JavaSplit(s: string, c: char): seq<string>
  {
    if c !in s then [s] else DropTrailingEmpty(SplitOn(s, c))
  }

  // ---------------------------------------------------------------------
  // Order-preserving filters and de-duplication

  function Filter<T(!new)>(s: seq<T>, f: T -> bool): (r: seq<T>)
    ensures |r| <= |s|
    ensures forall x :: x in r <==> x in s && f(x)
  {
    if |s| == 0 then []
    else if f(s[0]) then [s[0]] + Filter(s[1..], f)
    else Filter(s[1..], f)
  }

  lemma {:induction false} FilterAppend<T(!new)>(a: seq<T>, b: seq<T>, f: T -> bool)
    ensures Filter(a + b, f) == Filter(a, f) + Filter(b, f)
    decreases |a|
  {
    if |a| > 0 {
      assert (a + b)[1..] == a[1..] + b;
      FilterAppend(a[1..], b, f);
    } else {
      assert a + b == b;
    }
  }

  /** A filter that accepts nothing yields nothing. */
  lemma {:induction false} FilterNone<T(!new)>(s: seq<T>, f: T -> bool)
    requires forall x :: x in s ==> !f(x)
    ensures Filter(s, f) == []
    decreases |s|
  {
    if |s| > 0 {
      assert s[0] in s;
      FilterNone(s[1..], f);
    }
  }

  /** `sub` is `s` with some elements left out, the rest in their order. */
  predicate IsSubsequence<T(==)>(sub: seq<T>, s: seq<T>)
    decreases |s|
  {
    if |sub| == 0 then true
    else if |s| == 0 then false
    else if sub[0] == s[0] then IsSubsequence(sub[1..], s[1..])
    else IsSubsequence(sub, s[1..])
  }

  lemma {:induction false} FilterIsSubsequence<T(!new)>(s: seq<T>, f: T -> bool)
    ensures IsSubsequence(Filter(s, f), s)
    decreases |s|
  {
    if |s| > 0 {
      FilterIsSubsequence(s[1..], f);
    }
  }

  lemma {:induction false} SubsequencePrefix<T>(sub: seq<T>, s: seq<T>, n: nat)
    requires IsSubsequence(sub, s)
    requires n <= |sub|
    ensures IsSubsequence(sub[..n], s)
    decreases |s|
  {
    if n == 0 {
    } else if sub[0] == s[0] {
      SubsequencePrefix(sub[1..], s[1..], n - 1);
      assert sub[..n][1..] == sub[1..][..n - 1];
    } else {
      SubsequencePrefix(sub, s[1..], n);
    }
  }

  /** The titles a list of records carries, in order. */
  function Keys<T, K>(s: seq<T>, key: T -> K): (r: seq<K>)
    ensures |r| == |s|
    ensures forall i :: 0 <= i < |s| ==> r[i] == key(s[i])
  {
    if |s| == 0 then [] else [key(s[0])] + Keys(s[1..], key)
  }

  predicate DistinctKeys<T, K(==)>(s: seq<T>, key: T -> K) {
    forall i, j :: 0 <= i < j < |s| ==> key(s[i]) != key(s[j])
  }

  /** Index of the first element of `s` whose key is `k`. */
  predicate IsFirstWithKey<T, K(==)>(s: seq<T>, key: T -> K, i: int) {
    0 <= i < |s| && forall j :: 0 <= j < i ==> key(s[j]) != key(s[i])
  }

  /** Kotlin `distinctBy(key)` continuing after the keys in `seen`: keeps an
      element iff its key has not been kept (or seen) before. */
  function DistinctFrom<T, K(==)>(s: seq<T>, key: T -> K, seen: set<K>): (r: seq<T>)
    ensures |r| <= |s|
  {
    if |s| == 0 then []
    else if key(s[0]) in seen then DistinctFrom(s[1..], key, seen)
    else [s[0]] + DistinctFrom(s[1..], key, seen + {key(s[0])})
  }

  function DistinctBy<T, K(==)>(s: seq<T>, key: T -> K): (r: seq<T>)
  {
    DistinctFrom(s, key, {})
  }

  lemma {:induction false} DistinctFromMembers<T(!new), K>(s: seq<T>, key: T -> K, seen: set<K>)
    ensures forall x :: x in DistinctFrom(s, key, seen) ==> x in s && key(x) !in seen
    decreases |s|
  {
    if |s| > 0 {
      if key(s[0]) in seen {
        DistinctFromMembers(s[1..], key, seen);
      } else {
        DistinctFromMembers(s[1..], key, seen + {key(s[0])});
      }
    }
  }

  lemma {:induction false} DistinctFromUnique<T(!new), K>(s: seq<T>, key: T -> K, seen: set<K>)
    ensures DistinctKeys(DistinctFrom(s, key, seen), key)
    decreases |s|
  {
    if |s| > 0 {
      if key(s[0]) in seen {
        DistinctFromUnique(s[1..], key, seen);
      } else {
        var k0 := key(s[0]);
        var rest := DistinctFrom(s[1..], key, seen + {k0});
        var r := DistinctFrom(s, key, seen);
        DistinctFromUnique(s[1..], key, seen + {k0});
        DistinctFromMembers(s[1..], key, seen + {k0});
        assert r == [s[0]] + rest;
        forall i, j | 0 <= i < j < |r| ensures key(r[i]) != key(r[j]) {
          if i == 0 {
            assert r[j] in rest;
          } else {
            assert r[i] == rest[i - 1] && r[j] == rest[j - 1];
          }
        }
      }
    }
  }

  lemma {:induction false} DistinctFromCovers<T(!new), K>(s: seq<T>, key: T -> K, seen: set<K>)
    ensures forall x :: x in s && key(x) !in seen ==>
      exists y :: y in DistinctFrom(s, key, seen) && key(y) == key(x)
    decreases |s|
  {
    if |s| > 0 {
      var r := DistinctFrom(s, key, seen);
      if key(s[0]) in seen {
        DistinctFromCovers(s[1..], key, seen);
      } else {
        var k0 := key(s[0]);
        var rest := DistinctFrom(s[1..], key, seen + {k0});
        DistinctFromCovers(s[1..], key, seen + {k0});
        assert r == [s[0]] + rest;
        forall x | x in s && key(x) !in seen
          ensures exists y :: y in r && key(y) == key(x)
        {
          if key(x) == k0 {
            assert r[0] in r;
          } else {
            assert x in s[1..];
            var y :| y in rest && key(y) == key(x);
            assert y in r;
          }
        }
      }
    }
  }

  lemma {:induction false} DistinctFromFirst<T(!new), K>(s: seq<T>, key: T -> K, seen: set<K>)
    ensures forall y :: y in DistinctFrom(s, key, seen) ==>
      exists i :: IsFirstWithKey(s, key, i) && s[i] == y
    decreases |s|
  {
    if |s| > 0 {
      var r := DistinctFrom(s, key, seen);
      if key(s[0]) in seen {
        DistinctFromFirst(s[1..], key, seen);
        DistinctFromMembers(s[1..], key, seen);
        forall y | y in r
          ensures exists i :: IsFirstWithKey(s, key, i) && s[i] == y
        {
          var i :| IsFirstWithKey(s[1..], key, i) && s[1..][i] == y;
          assert key(y) != key(s[0]);
          assert IsFirstWithKey(s, key, i + 1);
        }
      } else {
        var k0 := key(s[0]);
        var rest := DistinctFrom(s[1..], key, seen + {k0});
        DistinctFromFirst(s[1..], key, seen + {k0});
        DistinctFromMembers(s[1..], key, seen + {k0});
        assert r == [s[0]] + rest;
        forall y | y in r
          ensures exists i :: IsFirstWithKey(s, key, i) && s[i] == y
        {
          if y == s[0] {
            assert IsFirstWithKey(s, key, 0);
          } else {
            assert y in rest;
            var i :| IsFirstWithKey(s[1..], key, i) && s[1..][i] == y;
            assert key(y) != k0;
            assert IsFirstWithKey(s, key, i + 1);
          }
        }
      }
    }
  }

  /** Kotlin `distinctBy`: keys become unique, nothing new appears, every
      key of the input survives, and the survivor of each key is the first
      element of the input that carries it. */
  lemma DistinctBySpec<T(!new), K>(s: seq<T>, key: T -> K)
    ensures var r := DistinctBy(s, key);
      && DistinctKeys(r, key)
      && (forall x :: x in r ==> x in s)
      && (forall x :: x in s ==> exists y :: y in r && key(y) == key(x))
      && (forall y :: y in r ==> exists i :: IsFirstWithKey(s, key, i) && s[i] == y)
  {
    DistinctFromMembers(s, key, {});
    DistinctFromUnique(s, key, {});
    DistinctFromCovers(s, key, {});
    DistinctFromFirst(s, key, {});
  }
  /** The keys a sequence carries. */
  function KeySet<T, K>(s: seq<T>, key: T -> K): (r: set<K>)
    ensures forall x :: x in s ==> key(x) in r
  {
    if |s| == 0 then {} else {key(s[0])} + KeySet(s[1..], key)
  }

  /** De-duplicating a concatenation: the first part is de-duplicated on
      its own, and the second continues with every key of the first seen. */
  lemma {:induction false} DistinctFromAppend<T, K>(a: seq<T>, b: seq<T>, key: T -> K, seen: set<K>)
    ensures DistinctFrom(a + b, key, seen) == DistinctFrom(a, key, seen) + DistinctFrom(b, key, seen + KeySet(a, key))
    decreases |a|
  {
    if |a| == 0 {
      assert a + b == b;
      assert seen + KeySet(a, key) == seen;
    } else {
      var k0 := key(a[0]);
      assert (a + b)[0] == a[0] && (a + b)[1..] == a[1..] + b;
      if k0 in seen {
        DistinctFromAppend(a[1..], b, key, seen);
        assert seen + KeySet(a, key) == seen + KeySet(a[1..], key);
      } else {
        DistinctFromAppend(a[1..], b, key, seen + {k0});
        assert seen + {k0} + KeySet(a[1..], key) == seen + KeySet(a, key);
      }
    }
  }

  /** De-duplicating an already de-duplicated sequence again, with at
      least the same keys seen, is the same as de-duplicating once. */
  lemma {:induction false} DistinctFromTwice<T, K>(s: seq<T>, key: T -> K, inner: set<K>, outer: set<K>)
    requires inner <= outer
    ensures DistinctFrom(DistinctFrom(s, key, inner), key, outer) == DistinctFrom(s, key, outer)
    decreases |s|
  {
    if |s| > 0 {
      var k0 := key(s[0]);
      if k0 in inner {
        DistinctFromTwice(s[1..], key, inner, outer);
      } else {
        var once := DistinctFrom(s[1..], key, inner + {k0});
        assert DistinctFrom(s, key, inner) == [s[0]] + once;
        assert ([s[0]] + once)[1..] == once;
        if k0 in outer {
          DistinctFromTwice(s[1..], key, inner + {k0}, outer);
        } else {
          DistinctFromTwice(s[1..], key, inner + {k0}, outer + {k0});
        }
      }
    }
  }

  /** `distinctBy` keeps something exactly when there is something. */
  lemma DistinctByEmpty<T, K>(s: seq<T>, key: T -> K)
    ensures |DistinctBy(s, key)| == 0 <==> |s| == 0
  {
  }
}
