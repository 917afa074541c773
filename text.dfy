/** The JavaScript string operations the two source files rely on:
    `toLowerCase`, `includes`, `startsWith`, `trim`, `split` on one
    character and `join`, on strings modelled as `seq<char>`. */
module Text {

  /** JavaScript's WhiteSpace and LineTerminator code points: what `trim()`
      removes and what the regular-expression class `\s` matches. */
  predicate IsSpace(c: char)
  {
    || c == '\t' || c == '\n' || c == '\U{000B}' || c == '\U{000C}' || c == '\r'
    || c == ' ' || c == '\U{00A0}' || c == '\U{1680}'
    || ('\U{2000}' <= c <= '\U{200A}')
    || c == '\U{2028}' || c == '\U{2029}' || c == '\U{202F}' || c == '\U{205F}'
    || c == '\U{3000}' || c == '\U{FEFF}'
  }

  /** Lower-casing of one character, restricted to ASCII letters. */
  function LowerChar(c: char): (d: char)
    ensures 'A' <= c <= 'Z' ==> 'a' <= d <= 'z'
    ensures 'A' <= c <= 'Z' ==> d as int == c as int + 32
    ensures !('A' <= c <= 'Z') ==> d == c
  {
    if 'A' <= c <= 'Z' then (c as int + 32) as char else c
  }

  /** `s.toLowerCase()` (ASCII letters only). */
  function Lower(s: string): (r: string)
    ensures |r| == |s|
    ensures forall i :: 0 <= i < |s| ==> r[i] == LowerChar(s[i])
  {
    seq(|s|, i requires 0 <= i < |s| => LowerChar(s[i]))
  }

  /** Lower-casing twice is lower-casing once; this is why every
      keyword test below gives the same answer on a title and on its
      lower-cased form. */
  lemma LowerIdempotent(s: string)
    ensures Lower(Lower(s)) == Lower(s)
  {
  }

  predicate StartsWith(s: string, prefix: string)
  {
    |prefix| <= |s| && s[..|prefix|] == prefix
  }

  predicate EndsWith(s: string, suffix: string)
  {
    |suffix| <= |s| && s[|s| - |suffix|..] == suffix
  }

  /** `s.includes(t)`: `t` occurs in `s` at some position (the empty
      string occurs everywhere). */
  predicate Contains(s: string, t: string)
    decreases |s|
  {
    StartsWith(s, t) || (|s| > 0 && Contains(s[1..], t))
  }

  /** `keywords.some(k => s.includes(k))`. */
  predicate Mentions(s: string, keywords: seq<string>)
  {
    exists k :: k in keywords && Contains(s, k)
  }

  /** `t` occurs in `s` starting at position `i`. */
  ghost predicate OccursAt(s: string, t: string, i: int)
  {
    0 <= i <= |s| - |t| && s[i..i + |t|] == t
  }

  /** The recursive search above finds exactly the positions where `t`
      occurs. */
  lemma {:induction false} ContainsIff(s: string, t: string)
    ensures Contains(s, t) <==> exists i :: OccursAt(s, t, i)
  {
    if StartsWith(s, t) {
      assert OccursAt(s, t, 0);
    } else if |s| == 0 {
    } else {
      ContainsIff(s[1..], t);
      if Contains(s[1..], t) {
        var i :| OccursAt(s[1..], t, i);
        assert s[i + 1..i + 1 + |t|] == s[1..][i..i + |t|];
        assert OccursAt(s, t, i + 1);
      }
      if exists i :: OccursAt(s, t, i) {
        var i :| OccursAt(s, t, i);
        assert i != 0;
        assert s[1..][i - 1..i - 1 + |t|] == s[i..i + |t|];
        assert OccursAt(s[1..], t, i - 1);
      }
    }
  }

  /** A text that contains `t` contains every character of `t`; so a
      keyword with a letter the text lacks cannot occur in it. */
  lemma ContainsHasChars(s: string, t: string)
    requires Contains(s, t)
    ensures forall c :: c in t ==> c in s
  {
    ContainsIff(s, t);
    var i :| OccursAt(s, t, i);
    forall c | c in t ensures c in s {
      var k :| 0 <= k < |t| && t[k] == c;
      assert s[i + k] == s[i..i + |t|][k];
    }
  }

  /** How many whitespace characters `s` starts with. */
  function LeadingSpaces(s: string): (n: nat)
    ensures n <= |s|
    ensures forall i :: 0 <= i < n ==> IsSpace(s[i])
    ensures n < |s| ==> !IsSpace(s[n])
  {
    if |s| > 0 && IsSpace(s[0]) then 1 + LeadingSpaces(s[1..]) else 0
  }

  /** How many whitespace characters `s` ends with. */
  function TrailingSpaces(s: string): (n: nat)
    ensures n <= |s|
    ensures forall i :: |s| - n <= i < |s| ==> IsSpace(s[i])
    ensures n < |s| ==> !IsSpace(s[|s| - n - 1])
  {
    if |s| > 0 && IsSpace(s[|s| - 1]) then 1 + TrailingSpaces(s[..|s| - 1]) else 0
  }

  /** `s.trimStart()`. */
  function TrimStart(s: string): string
  {
    s[LeadingSpaces(s)..]
  }

  /** `s.trimEnd()`. */
  function TrimEnd(s: string): string
  {
    s[..|s| - TrailingSpaces(s)]
  }

  /** `s.trim()`. */
  function Trim(s: string): (r: string)
    ensures |r| <= |s|
    ensures r != [] ==> !IsSpace(r[0]) && !IsSpace(r[|r| - 1])
    ensures s == [] || (!IsSpace(s[0]) && !IsSpace(s[|s| - 1])) ==> r == s
    ensures forall c :: c in r ==> c in s
  {
    var t := TrimStart(s);
    var r := TrimEnd(t);
    assert r != [] ==> r[0] == t[0];
    r
  }

  /** Trimming removes whitespace at the two ends of the text and nothing
      else: what is left is one stretch of the text, with only whitespace
      before it and after it. */
  lemma TrimKeepsMiddle(s: string)
    ensures exists a, b :: (0 <= a <= b <= |s| && Trim(s) == s[a..b]
      && (forall i :: 0 <= i < a ==> IsSpace(s[i])) && (forall i :: b <= i < |s| ==> IsSpace(s[i])))
  {
    var a := LeadingSpaces(s);
    var t := TrimStart(s);
    var b := a + |Trim(s)|;
    assert Trim(s) == s[a..b];
    assert forall i :: b <= i < |s| ==> s[i] == t[i - a];
  }

  /** Trimming leaves nothing exactly when the text is all whitespace. */
  lemma TrimEmpty(s: string)
    ensures Trim(s) == [] <==> forall i :: 0 <= i < |s| ==> IsSpace(s[i])
  {
    var t := TrimStart(s);
    if Trim(s) == [] {
      assert t == [];
    }
  }

  /** Trimming twice is trimming once. */
  lemma TrimIdempotent(s: string)
    ensures Trim(Trim(s)) == Trim(s)
  {
  }

  /** A blank in front of a text that starts with no blank is all that
      `trimStart` removes. */
  lemma TrimStartBlank(c: char, r: string)
    requires IsSpace(c) && (r == [] || !IsSpace(r[0]))
    ensures TrimStart([c] + r) == r
  {
    assert ([c] + r)[1..] == r;
  }

  /** A blank after a text that ends with no blank is all that `trimEnd`
      removes. */
  lemma TrimEndBlank(r: string, c: char)
    requires IsSpace(c) && (r == [] || !IsSpace(r[|r| - 1]))
    ensures TrimEnd(r + [c]) == r
  {
    assert (r + [c])[..|r|] == r;
  }

  /** A text that starts with `long` starts with every prefix of `long`. */
  lemma StartsWithPrefix(s: string, long: string, short: string)
    requires StartsWith(long, short)
    ensures StartsWith(s, long) ==> StartsWith(s, short)
  {
    if StartsWith(s, long) {
      assert s[..|short|] == s[..|long|][..|short|];
    }
  }

  /** Position of the first `c` in `s`. */
  function IndexOf(s: string, c: char): (i: nat)
    requires c in s
    ensures i < |s| && s[i] == c && c !in s[..i]
  {
    if s[0] == c then 0 else 1 + IndexOf(s[1..], c)
  }

  /** Position of the last `c` in `s`. */
  function LastIndexOf(s: string, c: char): (i: nat)
    requires c in s
    ensures i < |s| && s[i] == c && c !in s[i + 1..]
  {
    var last := |s| - 1;
    if s[last] == c then last
    else
      assert c in s[..last] by {
        var k :| 0 <= k < |s| && s[k] == c;
        assert s[..last][k] == c;
      }
      var i := LastIndexOf(s[..last], c);
      assert s[i + 1..] == s[..last][i + 1..] + [s[last]];
      i
  }

  /** No `c` comes before the first one. */
  lemma IndexOfFirst(s: string, c: char)
    requires c in s
    ensures forall k :: 0 <= k < IndexOf(s, c) ==> s[k] != c
  {
    var i := IndexOf(s, c);
    forall k | 0 <= k < i ensures s[k] != c {
      assert s[..i][k] == s[k];
    }
  }

  /** No `c` comes after the last one. */
  lemma LastIndexOfLast(s: string, c: char)
    requires c in s
    ensures forall k :: LastIndexOf(s, c) < k < |s| ==> s[k] != c
  {
    var i := LastIndexOf(s, c);
    forall k | i < k < |s| ensures s[k] != c {
      assert s[i + 1..][k - i - 1] == s[k];
    }
  }

  /** The first `c` in `p + [c] + q`, when `p` has none, is right after `p`. */
  lemma {:induction false} IndexOfAfterFree(p: string, c: char, q: string)
    requires c !in p
    ensures IndexOf(p + [c] + q, c) == |p|
  {
    if p != [] {
      assert (p + [c] + q)[1..] == p[1..] + [c] + q;
      IndexOfAfterFree(p[1..], c, q);
    }
  }

  /** `s.split(sep)` for a one-character separator: the pieces between
      the separators; there is always at least one. */
  function Split(s: string, sep: char): (pieces: seq<string>)
    ensures |pieces| >= 1
    ensures forall k :: 0 <= k < |pieces| ==> sep !in pieces[k]
    decreases |s|
  {
    if sep !in s then [s]
    else
      var i := IndexOf(s, sep);
      [s[..i]] + Split(s[i + 1..], sep)
  }

  /** `pieces.join(sep)`. */
  function Join(pieces: seq<string>, sep: string): string
  {
    if |pieces| == 0 then ""
    else if |pieces| == 1 then pieces[0]
    else pieces[0] + sep + Join(pieces[1..], sep)
  }

  /** Joining a first piece onto at least one more puts a separator between. */
  lemma JoinCons(first: string, rest: seq<string>, sep: string)
    requires |rest| >= 1
    ensures Join([first] + rest, sep) == first + sep + Join(rest, sep)
  {
    assert ([first] + rest)[1..] == rest;
  }

  /** Splitting on a character and joining with it again gives the text back. */
  lemma {:induction false} JoinSplit(s: string, sep: char)
    ensures Join(Split(s, sep), [sep]) == s
    decreases |s|
  {
    if sep in s {
      var i := IndexOf(s, sep);
      var rest := Split(s[i + 1..], sep);
      JoinSplit(s[i + 1..], sep);
      JoinCons(s[..i], rest, [sep]);
      assert s == s[..i] + [sep] + s[i + 1..];
    }
  }

  /** Joining separator-free pieces and splitting again gives the pieces back. */
  lemma {:induction false} SplitJoin(pieces: seq<string>, sep: char)
    requires |pieces| >= 1
    requires forall k :: 0 <= k < |pieces| ==> sep !in pieces[k]
    ensures Split(Join(pieces, [sep]), sep) == pieces
  {
    if |pieces| > 1 {
      var rest := pieces[1..];
      var s := Join(pieces, [sep]);
      assert pieces == [pieces[0]] + rest;
      JoinCons(pieces[0], rest, [sep]);
      IndexOfAfterFree(pieces[0], sep, Join(rest, [sep]));
      assert s[..|pieces[0]|] == pieces[0];
      assert s[|pieces[0]| + 1..] == Join(rest, [sep]);
      SplitJoin(rest, sep);
    }
  }
}
