/**
 * The string operations the article forms and the list page rely on:
 * Python's `str.strip()`, `str.split(sep)` and `sep.join(parts)`, and the
 * case-insensitive comparisons behind the ORM lookups `iexact` and
 * `icontains` (with ASCII lower-casing standing in for database collation).
 */
module Text {

  /** Python's `str.isspace()` for one character: the characters `str.strip()` removes. */
  predicate IsSpace(c: char) {
    var n := c as int;
    n == 0x20 || 0x09 <= n <= 0x0D || 0x1C <= n <= 0x1F || n == 0x85 || n == 0xA0
    || n == 0x1680 || 0x2000 <= n <= 0x200A || n == 0x2028 || n == 0x2029
    || n == 0x202F || n == 0x205F || n == 0x3000
  }

  predicate AllSpace(s: string) {
    forall i :: 0 <= i < |s| ==> IsSpace(s[i])
  }

  /** A string with no surrounding whitespace: what `strip()` returns. */
  predicate IsStripped(s: string) {
    s == [] || (!IsSpace(s[0]) && !IsSpace(s[|s| - 1]))
  }

  /** Removes leading whitespace; the result is a suffix of `s`. */
  function TrimLeft(s: string): (r: string)
    ensures |r| <= |s| && r == s[|s| - |r|..]
    ensures forall i :: 0 <= i < |s| - |r| ==> IsSpace(s[i])
    ensures r != [] ==> !IsSpace(r[0])
  {
    if s != [] && IsSpace(s[0]) then
      var t := TrimLeft(s[1..]);
      assert s[1..][|s| - 1 - |t|..] == s[|s| - |t|..];
      assert forall i :: 1 <= i < |s| - |t| ==> s[i] == s[1..][i - 1];
      t
    else s
  }

  /** Removes trailing whitespace; the result is a prefix of `s`. */
  function TrimRight(s: string): (r: string)
    ensures |r| <= |s| && r == s[..|r|]
    ensures forall i :: |r| <= i < |s| ==> IsSpace(s[i])
    ensures r != [] ==> !IsSpace(r[|r| - 1])
  {
    if s != [] && IsSpace(s[|s| - 1]) then
      var t := TrimRight(s[..|s| - 1]);
      assert s[..|s| - 1][..|t|] == s[..|t|];
      assert forall i :: |t| <= i < |s| - 1 ==> s[i] == s[..|s| - 1][i];
      t
    else s
  }

  /**
   * Python's `s.strip()`: the result has no surrounding whitespace, is
   * empty exactly when `s` is all whitespace, and leaves an already
   * stripped string alone. `StripMiddle` proves that it is `s` with only
   * a whitespace prefix and a whitespace suffix removed.
   */
  function Strip(s: string): (r: string)
    ensures IsStripped(r)
    ensures r == [] <==> AllSpace(s)
    ensures IsStripped(s) ==> r == s
  {
    TrimBoth(s);
    TrimRight(TrimLeft(s))
  }

  /** Trimming both ends, as `Strip` does, has the properties `Strip` promises. */
  lemma TrimBoth(s: string)
    ensures var r := TrimRight(TrimLeft(s));
      && IsStripped(r)
      && (r == [] <==> AllSpace(s))
      && (IsStripped(s) ==> r == s)
  {
    TrimBothEnds(s);
    TrimBothEmpty(s);
    TrimBothStable(s);
  }

  lemma TrimBothEnds(s: string)
    ensures IsStripped(TrimRight(TrimLeft(s)))
  {
    var l := TrimLeft(s);
    var r := TrimRight(l);
    if r != [] {
      assert r[0] == l[0];
    }
  }

  lemma TrimBothEmpty(s: string)
    ensures TrimRight(TrimLeft(s)) == [] <==> AllSpace(s)
  {
    var l := TrimLeft(s);
    var r := TrimRight(l);
    if r != [] {
      assert r[0] == l[0] == s[|s| - |l|];
    }
  }

  lemma TrimBothStable(s: string)
    ensures IsStripped(s) ==> TrimRight(TrimLeft(s)) == s
  {
    var l := TrimLeft(s);
    if IsStripped(s) && s != [] {
      assert |l| == |s|;
      assert |TrimRight(l)| == |l|;
    }
  }

  /**
   * The stripped text is a contiguous piece of `s`, and everything before
   * and after that piece is whitespace.
   */
  lemma StripMiddle(s: string) returns (i: nat, j: nat)
    ensures i <= j <= |s| && Strip(s) == s[i..j]
    ensures AllSpace(s[..i]) && AllSpace(s[j..])
  {
    var l := TrimLeft(s);
    var r := TrimRight(l);
    i := |s| - |l|;
    j := i + |r|;
    assert l == s[i..];
    assert r == l[..|r|] == s[i..j];
    forall k | 0 <= k < |s[j..]| ensures IsSpace(s[j..][k]) {
      assert s[j..][k] == l[|r| + k];
    }
  }

  lemma {:induction false} TrimLeftAvoids(s: string, c: char)
    requires c !in s
    ensures c !in TrimLeft(s)
  {
    if s != [] && IsSpace(s[0]) {
      assert s == [s[0]] + s[1..];
      TrimLeftAvoids(s[1..], c);
    }
  }

  lemma {:induction false} TrimRightAvoids(s: string, c: char)
    requires c !in s
    ensures c !in TrimRight(s)
  {
    if s != [] && IsSpace(s[|s| - 1]) {
      assert s == s[..|s| - 1] + [s[|s| - 1]];
      TrimRightAvoids(s[..|s| - 1], c);
    }
  }

  /** Stripping adds no character: one absent from `s` is absent from the result. */
  lemma StripAvoids(s: string, c: char)
    requires c !in s
    ensures c !in Strip(s)
  {
    TrimLeftAvoids(s, c);
    TrimRightAvoids(TrimLeft(s), c);
  }

  /** Stripping ignores one more leading whitespace character. */
  lemma {:induction false} StripLeadingSpace(c: char, s: string)
    requires IsSpace(c)
    ensures Strip([c] + s) == Strip(s)
  {
    var cs := [c] + s;
    assert cs[0] == c && cs[1..] == s;
    assert TrimLeft(cs) == TrimLeft(s);
    assert Strip(cs) == TrimRight(TrimLeft(cs));
  }

  /** Concatenation regroups freely. */
  lemma SeqRegroup<T>(x: seq<T>, y: seq<T>, z: seq<T>)
    ensures x + (y + z) == x + y + z
  {
  }

  /** Number of occurrences of `c` in `s`. */
  function Count(s: string, c: char): (n: nat)
    ensures n <= |s|
    ensures n == 0 <==> c !in s
  {
    if s == [] then 0 else (if s[0] == c then 1 else 0) + Count(s[1..], c)
  }

  /**
   * Python's `sep.join(parts)`: the parts in order with `sep` between
   * neighbours; the join of no parts is the empty string.
   */
  function Join(parts: seq<string>, sep: string): (r: string)
    ensures parts == [] ==> r == []
    ensures parts != [] ==> parts[0] <= r
  {
    if |parts| == 0 then []
    else if |parts| == 1 then parts[0]
    else parts[0] + sep + Join(parts[1..], sep)
  }

  /**
   * Python's `s.split(sep)` for a one-character separator: one more piece
   * than there are separators. `SplitPiecesFree` proves that no piece
   * holds the separator and `JoinSplit` that joining the pieces gives `s`
   * back.
   */
  function Split(s: string, sep: char): (parts: seq<string>)
    ensures |parts| == Count(s, sep) + 1
  {
    if s == [] then [[]]
    else
      var rest := Split(s[1..], sep);
      if s[0] == sep then [[]] + rest
      else [[s[0]] + rest[0]] + rest[1..]
  }

  /** No piece of a split holds the separator. */
  lemma {:induction false} SplitPiecesFree(s: string, sep: char)
    ensures forall p :: p in Split(s, sep) ==> sep !in p
  {
    if s != [] {
      SplitPiecesFree(s[1..], sep);
      var rest := Split(s[1..], sep);
      if s[0] != sep {
        assert rest[0] in rest;
        forall p | p in rest[1..] ensures p in rest {
        }
      }
    }
  }

  /** Joining a first part in front of at least one more. */
  lemma JoinCons(p: string, parts: seq<string>, sep: string)
    requires parts != []
    ensures Join([p] + parts, sep) == p + sep + Join(parts, sep)
  {
    assert ([p] + parts)[1..] == parts;
  }

  /** Gluing a character onto the first part glues it onto the join. */
  lemma JoinGlue(c: char, parts: seq<string>, sep: string)
    requires parts != []
    ensures Join([[c] + parts[0]] + parts[1..], sep) == [c] + Join(parts, sep)
  {
    var glued := [[c] + parts[0]] + parts[1..];
    if |parts| == 1 {
      assert glued == [[c] + parts[0]];
    } else {
      assert glued[0] == [c] + parts[0] && glued[1..] == parts[1..];
      calc {
        Join(glued, sep);
        ([c] + parts[0]) + sep + Join(parts[1..], sep);
        [c] + (parts[0] + sep + Join(parts[1..], sep));
        [c] + Join(parts, sep);
      }
    }
  }

  /** Splitting and joining again on the same separator is the identity. */
  lemma {:induction false} JoinSplit(s: string, sep: char)
    ensures Join(Split(s, sep), [sep]) == s
  {
    if s != [] {
      var rest := Split(s[1..], sep);
      JoinSplit(s[1..], sep);
      if s[0] == sep {
        JoinCons([], rest, [sep]);
      } else {
        JoinGlue(s[0], rest, [sep]);
      }
      assert [s[0]] + s[1..] == s;
    }
  }

  /** A string without the separator splits into itself alone. */
  lemma {:induction false} SplitNoSep(a: string, sep: char)
    requires sep !in a
    ensures Split(a, sep) == [a]
  {
    if a != [] {
      SplitNoSep(a[1..], sep);
      assert [a[0]] + a[1..] == a;
    }
  }

  /** The first separator closes the first piece. */
  lemma SplitAtSep(a: string, sep: char, b: string)
    requires sep !in a
    ensures Split(a + [sep] + b, sep) == [a] + Split(b, sep)
  {
    SplitConcat(a, sep, b);
    SplitNoSep(a, sep);
  }

  /** Regrouping a split whose first piece gains a character. */
  lemma GlueRegroup(c: char, px: seq<string>, py: seq<string>)
    requires px != []
    ensures [[c] + (px + py)[0]] + (px + py)[1..] == ([[c] + px[0]] + px[1..]) + py
  {
    assert (px + py)[0] == px[0];
    assert (px + py)[1..] == px[1..] + py;
  }

  /**
   * Splitting at a separator in the middle: the pieces of the text before
   * it, then the pieces of the text after it.
   */
  lemma {:induction false} SplitConcat(x: string, sep: char, y: string)
    ensures Split(x + [sep] + y, sep) == Split(x, sep) + Split(y, sep)
    decreases |x|
  {
    var s := x + [sep] + y;
    if x == [] {
      assert s[0] == sep && s[1..] == y;
    } else {
      assert s[0] == x[0] && s[1..] == x[1..] + [sep] + y;
      SplitConcat(x[1..], sep, y);
      if x[0] != sep {
        GlueRegroup(x[0], Split(x[1..], sep), Split(y, sep));
      }
    }
  }

  /** A leading non-separator character is glued onto the first piece. */
  lemma SplitCons(c: char, s: string, sep: char)
    requires c != sep
    ensures Split([c] + s, sep) == [[c] + Split(s, sep)[0]] + Split(s, sep)[1..]
  {
    assert ([c] + s)[0] == c && ([c] + s)[1..] == s;
  }

  /** ASCII lower-casing of one character. */
  function LowerChar(c: char): (r: char)
    ensures 'A' <= c <= 'Z' ==> r as int == c as int + 32
    ensures !('A' <= c <= 'Z') ==> r == c
  {
    if 'A' <= c <= 'Z' then (c as int + 32) as char else c
  }

  /**
   * ASCII lower-casing of a string: no upper-case ASCII letter is left,
   * every other character stays, and lower-casing twice changes nothing
   * (`LowerIdempotent`).
   */
  function Lower(s: string): (r: string)
    ensures |r| == |s|
    ensures forall i :: 0 <= i < |r| ==> !('A' <= r[i] <= 'Z')
    ensures forall i :: 0 <= i < |s| && !('A' <= s[i] <= 'Z') ==> r[i] == s[i]
    ensures forall i :: 0 <= i < |s| && 'A' <= s[i] <= 'Z' ==> r[i] as int == s[i] as int + 32
  {
    seq(|s|, i requires 0 <= i < |s| => LowerChar(s[i]))
  }

  /** Lower-casing an already lower-cased string changes nothing. */
  lemma LowerIdempotent(s: string)
    ensures Lower(Lower(s)) == Lower(s)
  {
    var l := Lower(s);
    forall i | 0 <= i < |l| ensures Lower(l)[i] == l[i] {
      assert !('A' <= l[i] <= 'Z');
    }
  }

  /** Python's `needle in hay`: `needle` occurs as a contiguous piece of `hay`. */
  function Contains(hay: string, needle: string): bool
    decreases |hay|
  {
    needle <= hay || (hay != [] && Contains(hay[1..], needle))
  }

  /** `needle` occurs in `hay` starting at position `i`. */
  predicate OccursAt(hay: string, needle: string, i: nat) {
    i + |needle| <= |hay| && hay[i..i + |needle|] == needle
  }

  /** An occurrence at any position is found. */
  lemma {:induction false} ContainsAt(hay: string, needle: string, i: nat)
    requires OccursAt(hay, needle, i)
    ensures Contains(hay, needle)
  {
    if i > 0 {
      assert hay[1..][i - 1..i - 1 + |needle|] == needle;
      ContainsAt(hay[1..], needle, i - 1);
    } else {
      assert needle <= hay;
    }
  }

  /** Every occurrence that is found lies somewhere in `hay`. */
  lemma {:induction false} ContainsWitness(hay: string, needle: string) returns (i: nat)
    requires Contains(hay, needle)
    ensures OccursAt(hay, needle, i)
    decreases |hay|
  {
    if needle <= hay {
      i := 0;
    } else {
      var j := ContainsWitness(hay[1..], needle);
      i := j + 1;
      assert hay[i..i + |needle|] == hay[1..][j..j + |needle|];
    }
  }

  /** The substring test holds exactly when some position holds the needle. */
  lemma ContainsIff(hay: string, needle: string)
    ensures Contains(hay, needle) <==> exists i: nat :: OccursAt(hay, needle, i)
  {
    if Contains(hay, needle) {
      var i := ContainsWitness(hay, needle);
    }
    forall i: nat | OccursAt(hay, needle, i) ensures Contains(hay, needle) {
      ContainsAt(hay, needle, i);
    }
  }

  /**
   * The ORM lookup `field__icontains=needle`: the lower-cased needle
   * occurs at some position of the lower-cased text.
   */
  predicate IContains(hay: string, needle: string)
    ensures IContains(hay, needle) <==> exists i: nat :: OccursAt(Lower(hay), Lower(needle), i)
  {
    ContainsIff(Lower(hay), Lower(needle));
    Contains(Lower(hay), Lower(needle))
  }

  /** The ORM lookup `field__iexact=value`. */
  predicate IExact(s: string, value: string) {
    Lower(s) == Lower(value)
  }

  /** `icontains` does not see the case of either side, alone or together. */
  lemma IContainsIgnoresCase(hay: string, needle: string)
    ensures IContains(hay, needle) == IContains(Lower(hay), needle)
    ensures IContains(hay, needle) == IContains(hay, Lower(needle))
    ensures IContains(hay, needle) == IContains(Lower(hay), Lower(needle))
  {
    LowerIdempotent(hay);
    LowerIdempotent(needle);
  }

  /** `iexact` does not see the case of either side, alone or together. */
  lemma IExactIgnoresCase(s: string, value: string)
    ensures IExact(s, value) == IExact(Lower(s), value)
    ensures IExact(s, value) == IExact(s, Lower(value))
    ensures IExact(s, value) == IExact(Lower(s), Lower(value))
  {
    LowerIdempotent(s);
    LowerIdempotent(value);
  }
}
