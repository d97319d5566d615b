/**
 * The Python `str` operations the scraper relies on, written out as Dafny
 * functions over `string` (= `seq<char>`): `isspace`, `strip()`, `startswith`,
 * `find`, the `in` operator on substrings, `split(sep)`, `split()` and
 * `sep.join(...)`. `isspace` and `startswith` are defined outright; the other
 * operations carry contracts that say what their results are, and lemmas
 * complete them: the round trips tie `split` and `join` together, and the
 * `SplitWhitespace` lemmas fix `split()` on any text made of whitespace runs
 * and words.
 */
module PyStr {

  /** Python's `str.isspace()` on one character: one of the 29 code points
      whose bidirectional class is WS, B or S or whose category is Zs. */
  predicate IsSpace(c: char) {
    ('\t' <= c <= '\r') || ('\U{1C}' <= c <= '\U{1F}') || c == ' '
    || c == '\U{85}' || c == '\U{A0}' || c == '\U{1680}'
    || ('\U{2000}' <= c <= '\U{200A}') || c == '\U{2028}' || c == '\U{2029}'
    || c == '\U{202F}' || c == '\U{205F}' || c == '\U{3000}'
  }

  predicate NoSpace(s: string) {
    forall i | 0 <= i < |s| :: !IsSpace(s[i])
  }

  predicate AllSpace(s: string) {
    forall i | 0 <= i < |s| :: IsSpace(s[i])
  }

  /** `s.startswith(prefix)` */
  predicate StartsWith(s: string, prefix: string) {
    |prefix| <= |s| && s[..|prefix|] == prefix
  }

  /** `sub` occurs in `s` starting at index `i`. */
  predicate OccursAt(s: string, sub: string, i: int) {
    0 <= i && i + |sub| <= |s| && s[i..i + |sub|] == sub
  }

  /** `sub in s` for strings: `sub` occurs at some offset of `s`. */
  function Contains(s: string, sub: string): (r: bool)
    ensures r <==> exists i :: OccursAt(s, sub, i)
  {
    if StartsWith(s, sub) then
      assert OccursAt(s, sub, 0);
      true
    else if s == [] then
      false
    else
      var r := Contains(s[1..], sub);
      assert forall i :: OccursAt(s[1..], sub, i) <==> OccursAt(s, sub, i + 1);
      assert forall i :: OccursAt(s, sub, i) ==> i == 0 || OccursAt(s[1..], sub, i - 1);
      r
  }

  /** `s.find(c)`: the index of the first `c` in `s`, or -1. */
  function Find(s: string, c: char): (r: int)
    ensures -1 <= r < |s|
    ensures r == -1 <==> c !in s
    ensures r >= 0 ==> s[r] == c && c !in s[..r]
  {
    if s == [] then -1
    else if s[0] == c then 0
    else
      var k := Find(s[1..], c);
      if k == -1 then -1
      else
        assert s[..k + 1] == [s[0]] + s[1..][..k];
        k + 1
  }

  /** `s.lstrip()` */
  function TrimStart(s: string): (r: string)
    ensures |r| <= |s| && r == s[|s| - |r|..]
    ensures AllSpace(s[..|s| - |r|])
    ensures r == [] || !IsSpace(r[0])
  {
    if s != [] && IsSpace(s[0]) then
      var r := TrimStart(s[1..]);
      assert s[..|s| - |r|] == [s[0]] + s[1..][..|s| - 1 - |r|];
      r
    else s
  }

  /** `s.rstrip()` */
  function TrimEnd(s: string): (r: string)
    ensures |r| <= |s| && r == s[..|r|]
    ensures AllSpace(s[|r|..])
    ensures r == [] || !IsSpace(r[|r| - 1])
  {
    if s != [] && IsSpace(s[|s| - 1]) then
      var r := TrimEnd(s[..|s| - 1]);
      assert s[|r|..] == s[..|s| - 1][|r|..] + [s[|s| - 1]];
      r
    else s
  }

  /** `s` is whitespace up to `i`, then `r`, then whitespace to the end. */
  predicate Surrounded(s: string, i: int, r: string) {
    0 <= i <= |s| - |r| && r == s[i..i + |r|] && AllSpace(s[..i]) && AllSpace(s[i + |r|..])
  }

  /** `s.strip()`: `s` is whitespace, then the result, then whitespace, and the
      result neither begins nor ends with whitespace. */
  function Strip(s: string): (r: string)
    ensures |r| <= |s|
    ensures exists i :: Surrounded(s, i, r)
    ensures r == [] || (!IsSpace(r[0]) && !IsSpace(r[|r| - 1]))
  {
    var t := TrimStart(s);
    var r := TrimEnd(t);
    StripParts(s, t, r);
    r
  }

  lemma StripParts(s: string, t: string, r: string)
    requires t == TrimStart(s) && r == TrimEnd(t)
    ensures Surrounded(s, |s| - |t|, r)
  {
    var i := |s| - |t|;
    DropDrop(s, i, |r|);
    DropTake(s, i, |r|);
    assert 0 <= i <= |s| - |r|;
    assert r == s[i..i + |r|];
    assert AllSpace(s[..i]);
    assert AllSpace(s[i + |r|..]);
    assert Surrounded(s, i, r);
  }

  lemma DropDrop<T>(s: seq<T>, i: nat, j: nat)
    requires i + j <= |s|
    ensures s[i..][j..] == s[i + j..]
  {
  }

  lemma DropTake<T>(s: seq<T>, i: nat, n: nat)
    requires i + n <= |s|
    ensures s[i..][..n] == s[i..i + n]
  {
  }

  /** `sep.join(parts)` for a one-character separator. */
  function Join(parts: seq<string>, sep: char): (r: string)
    ensures parts == [] ==> r == []
    ensures |parts| == 1 ==> r == parts[0]
    ensures |parts| >= 1 ==> parts[0] <= r
    ensures |parts| >= 2 ==> |parts[0]| < |r| && r[|parts[0]|] == sep
  {
    if |parts| == 0 then ""
    else if |parts| == 1 then parts[0]
    else parts[0] + [sep] + Join(parts[1..], sep)
  }

  /** `s.split(sep)` for a one-character separator: always at least one part
      (`"".split("|") == [""]`), and no part holds the separator. */
  function Split(s: string, sep: char): (parts: seq<string>)
    ensures |parts| >= 1
    ensures forall i | 0 <= i < |parts| :: sep !in parts[i]
  {
    if s == [] then [""]
    else
      var rest := Split(s[1..], sep);
      if s[0] == sep then [""] + rest
      else [[s[0]] + rest[0]] + rest[1..]
  }

  /** Joining the parts of a split gives back the string. */
  lemma {:induction false} JoinSplit(s: string, sep: char)
    ensures Join(Split(s, sep), sep) == s
  {
    if s != [] {
      var rest := Split(s[1..], sep);
      JoinSplit(s[1..], sep);
      if s[0] != sep && |rest| > 1 {
        assert Split(s, sep)[1..] == rest[1..];
      }
    }
  }

  /** Splitting a string with no separator in it gives that string alone. */
  lemma {:induction false} SplitNoSep(s: string, sep: char)
    requires sep !in s
    ensures Split(s, sep) == [s]
  {
    if s != [] {
      SplitNoSep(s[1..], sep);
      assert [s[0]] + s[1..] == s;
    }
  }

  /** Splitting at a separator that follows a separator-free prefix. */
  lemma {:induction false} SplitAtSep(a: string, sep: char, b: string)
    requires sep !in a
    ensures Split(a + [sep] + b, sep) == [a] + Split(b, sep)
  {
    if a == [] {
      assert (a + [sep] + b)[1..] == b;
    } else {
      var s := a + [sep] + b;
      assert s[0] == a[0] != sep;
      assert s[1..] == a[1..] + [sep] + b;
      SplitAtSep(a[1..], sep, b);
      assert [a[0]] + a[1..] == a;
    }
  }

  /** Splitting a join of separator-free parts gives back the parts. */
  lemma {:induction false} SplitJoin(parts: seq<string>, sep: char)
    requires |parts| >= 1
    requires forall i | 0 <= i < |parts| :: sep !in parts[i]
    ensures Split(Join(parts, sep), sep) == parts
  {
    if |parts| == 1 {
      SplitNoSep(parts[0], sep);
    } else {
      SplitJoin(parts[1..], sep);
      SplitAtSep(parts[0], sep, Join(parts[1..], sep));
    }
  }

  /** The non-whitespace characters of `s`, in order. */
  function RemoveSpace(s: string): (r: string)
    ensures NoSpace(r) && |r| <= |s|
  {
    if s == [] then []
    else if IsSpace(s[0]) then RemoveSpace(s[1..])
    else [s[0]] + RemoveSpace(s[1..])
  }

  function Concat(parts: seq<string>): string
  {
    if parts == [] then "" else parts[0] + Concat(parts[1..])
  }

  /** `s.split()` with no argument: the maximal runs of non-whitespace
      characters, in order. Read from the front, a whitespace character is
      dropped, and any other character either joins the word that the next
      character begins or, when the next character is whitespace or there is
      none, is a word of its own. Every word is non-empty and free of
      whitespace, and a string that begins with a word character has a first
      word that begins with it. */
  function SplitWhitespace(s: string): (words: seq<string>)
    ensures forall i | 0 <= i < |words| :: words[i] != [] && NoSpace(words[i])
    ensures s != [] && !IsSpace(s[0]) ==> words != [] && words[0][0] == s[0]
  {
    if s == [] then []
    else
      var rest := SplitWhitespace(s[1..]);
      if IsSpace(s[0]) then rest
      else if |s| > 1 && !IsSpace(s[1]) then [[s[0]] + rest[0]] + rest[1..]
      else [[s[0]]] + rest
  }

  /** The words hold exactly the non-whitespace characters of `s`, in order. */
  lemma {:induction false} SplitWhitespaceChars(s: string)
    ensures Concat(SplitWhitespace(s)) == RemoveSpace(s)
  {
    if s != [] {
      SplitWhitespaceChars(s[1..]);
      var rest := SplitWhitespace(s[1..]);
      if !IsSpace(s[0]) {
        if |s| > 1 && !IsSpace(s[1]) {
          assert ([[s[0]] + rest[0]] + rest[1..])[1..] == rest[1..];
        } else {
          assert ([[s[0]]] + rest)[1..] == rest;
        }
      }
    }
  }

  /** `s.split()` is empty exactly when `s` is all whitespace. */
  lemma {:induction false} SplitWhitespaceEmpty(s: string)
    ensures SplitWhitespace(s) == [] <==> AllSpace(s)
  {
    if s != [] {
      SplitWhitespaceEmpty(s[1..]);
      assert AllSpace(s) <==> IsSpace(s[0]) && AllSpace(s[1..]);
    }
  }

  /** Every character of a word of `s.split()` is a character of `s`. */
  lemma {:induction false} TokenChars(s: string, i: nat, c: char)
    requires i < |SplitWhitespace(s)| && c in SplitWhitespace(s)[i]
    ensures c in s
  {
    var rest := SplitWhitespace(s[1..]);
    assert s == [s[0]] + s[1..];
    if IsSpace(s[0]) {
      TokenChars(s[1..], i, c);
    } else if |s| > 1 && !IsSpace(s[1]) {
      if i > 0 {
        TokenChars(s[1..], i, c);
      } else if c != s[0] {
        assert c in rest[0];
        TokenChars(s[1..], 0, c);
      }
    } else if i > 0 {
      TokenChars(s[1..], i - 1, c);
    }
  }

  /** `SplitWhitespace` on a string given as its first character and the rest. */
  lemma SplitWhitespaceCons(c: char, t: string)
    ensures SplitWhitespace([c] + t) ==
      if IsSpace(c) then SplitWhitespace(t)
      else if t != [] && !IsSpace(t[0]) then
        [[c] + SplitWhitespace(t)[0]] + SplitWhitespace(t)[1..]
      else [[c]] + SplitWhitespace(t)
  {
    assert ([c] + t)[1..] == t;
  }

  /** One step of `SplitWhitespaceAppend`: putting a character in front of
      `t` keeps the words of `t + b` those of `t` followed by those of `b`. */
  lemma SplitWhitespaceAppendStep(c: char, t: string, b: string)
    requires IsSpace(c) || t != []
    requires SplitWhitespace(t + b) == SplitWhitespace(t) + SplitWhitespace(b)
    ensures SplitWhitespace([c] + (t + b)) == SplitWhitespace([c] + t) + SplitWhitespace(b)
  {
    SplitWhitespaceCons(c, t);
    SplitWhitespaceCons(c, t + b);
    if !IsSpace(c) {
      assert (t + b)[0] == t[0];
      if IsSpace(t[0]) {
        NewWordStep(c, SplitWhitespace(t), SplitWhitespace(b));
      } else {
        SameWordStep(c, SplitWhitespace(t), SplitWhitespace(b));
      }
    }
  }

  lemma NewWordStep(c: char, sa: seq<string>, sb: seq<string>)
    ensures [[c]] + (sa + sb) == ([[c]] + sa) + sb
  {
  }

  lemma SameWordStep(c: char, sa: seq<string>, sb: seq<string>)
    requires sa != []
    ensures [[c] + (sa + sb)[0]] + (sa + sb)[1..] == ([[c] + sa[0]] + sa[1..]) + sb
  {
    assert (sa + sb)[0] == sa[0] && (sa + sb)[1..] == sa[1..] + sb;
  }

  /** Whitespace separates words: when `a` ends in whitespace or `b` begins
      with it (or either is empty), the words of `a + b` are those of `a`
      followed by those of `b`. */
  lemma {:induction false} SplitWhitespaceAppend(a: string, b: string)
    requires a == [] || IsSpace(a[|a| - 1]) || b == [] || IsSpace(b[0])
    ensures SplitWhitespace(a + b) == SplitWhitespace(a) + SplitWhitespace(b)
  {
    if a == [] {
      assert a + b == b;
    } else {
      var t := a[1..];
      assert a == [a[0]] + t;
      assert a + b == [a[0]] + (t + b);
      assert t != [] ==> t[|t| - 1] == a[|a| - 1];
      SplitWhitespaceAppend(t, b);
      if IsSpace(a[0]) || t != [] {
        SplitWhitespaceAppendStep(a[0], t, b);
      } else {
        SplitWhitespaceLetter(a[0], b);
      }
    }
  }

  lemma SplitWhitespaceLetter(c: char, b: string)
    requires !IsSpace(c) && (b == [] || IsSpace(b[0]))
    ensures SplitWhitespace([c] + b) == SplitWhitespace([c]) + SplitWhitespace(b)
  {
    SplitWhitespaceCons(c, b);
    SplitWhitespaceCons(c, []);
    assert [c] + [] == [c];
  }

  /** A non-empty run without whitespace is one word. */
  lemma {:induction false} SplitWhitespaceWord(w: string)
    requires w != [] && NoSpace(w)
    ensures SplitWhitespace(w) == [w]
  {
    assert w == [w[0]] + w[1..];
    SplitWhitespaceCons(w[0], w[1..]);
    if |w| > 1 {
      SplitWhitespaceWord(w[1..]);
      assert !IsSpace(w[1]);
      assert [w] == [[w[0]] + w[1..]] + [w[1..]][1..];
    } else {
      assert w == [w[0]] && SplitWhitespace(w[1..]) == [];
    }
  }
}
