/**
 * The string operations the source relies on, with Python's semantics
 * restricted to ASCII letters: `in` (substring), `str.index`, `str.replace`,
 * `lower`, `capitalize`, `isupper`, `strip`, `split()`, `startswith`,
 * `endswith`, slicing with negative and out-of-range bounds, `join`, and
 * `str()` of a list of strings.
 */
module Strs {

  predicate IsUpperChar(c: char) { 'A' <= c <= 'Z' }
  predicate IsLowerChar(c: char) { 'a' <= c <= 'z' }

  function LowerChar(c: char): char
  {
    if IsUpperChar(c) then (c as int + 32) as char else c
  }

  function UpperChar(c: char): char
  {
    if IsLowerChar(c) then (c as int - 32) as char else c
  }

  /** `s.lower()` */
  function Lower(s: string): string
  {
    seq(|s|, i requires 0 <= i < |s| => LowerChar(s[i]))
  }

  /** `s.capitalize()`: first character upper case, the rest lower case. */
  function Capitalize(s: string): string
  {
    if |s| == 0 then "" else [UpperChar(s[0])] + Lower(s[1..])
  }

  /** `s.isupper()`: at least one cased character and no lower-case one. */
  predicate IsUpper(s: string)
  {
    (exists i :: 0 <= i < |s| && IsUpperChar(s[i])) && forall i :: 0 <= i < |s| ==> !IsLowerChar(s[i])
  }

  /** Python's whitespace (`str.isspace`) on the ASCII range. */
  predicate IsSpace(c: char)
  {
    c == ' ' || (9 <= c as int <= 13) || (28 <= c as int <= 31)
  }

  predicate ContainsAt(s: string, sub: string, i: int)
  {
    0 <= i && i + |sub| <= |s| && s[i..i + |sub|] == sub
  }

  /** Python's `sub in s`. */
  predicate Contains(s: string, sub: string)
  {
    exists i :: 0 <= i <= |s| - |sub| && ContainsAt(s, sub, i)
  }

  predicate StartsWith(s: string, prefix: string) { prefix <= s }

  predicate EndsWith(s: string, suffix: string)
  {
    |suffix| <= |s| && s[|s| - |suffix|..] == suffix
  }

  /** Number of characters of s equal to c (`s.count(c)`). */
  function CountChar(s: string, c: char): nat
  {
    if |s| == 0 then 0 else (if s[0] == c then 1 else 0) + CountChar(s[1..], c)
  }

  function FindFrom(s: string, sub: string, p: nat): (k: nat)
    requires exists i :: p <= i <= |s| - |sub| && ContainsAt(s, sub, i)
    ensures p <= k && ContainsAt(s, sub, k)
    ensures forall j :: p <= j < k ==> !ContainsAt(s, sub, j)
    decreases |s| - p
  {
    if ContainsAt(s, sub, p) then p else FindFrom(s, sub, p + 1)
  }

  /** `s.index(sub)`: the position of the first occurrence. */
  function FirstIndex(s: string, sub: string): (k: nat)
    requires Contains(s, sub)
    ensures ContainsAt(s, sub, k)
    ensures forall j :: 0 <= j < k ==> !ContainsAt(s, sub, j)
  {
    FindFrom(s, sub, 0)
  }

  /** `s.replace(pat, rep)`: left to right, non-overlapping. */
  function ReplaceAll(s: string, pat: string, rep: string): string
    requires |pat| > 0
    decreases |s|
  {
    if |s| == 0 then ""
    else if pat <= s then rep + ReplaceAll(s[|pat|..], pat, rep)
    else [s[0]] + ReplaceAll(s[1..], pat, rep)
  }

  function StripLeft(s: string): (r: string)
    ensures |r| <= |s| && r == s[|s| - |r|..]
    ensures |r| > 0 ==> !IsSpace(r[0])
    decreases |s|
  {
    if |s| > 0 && IsSpace(s[0]) then StripLeft(s[1..]) else s
  }

  function StripRight(s: string): (r: string)
    ensures |r| <= |s| && r == s[..|r|]
    ensures |r| > 0 ==> !IsSpace(r[|r| - 1])
    decreases |s|
  {
    if |s| > 0 && IsSpace(s[|s| - 1]) then StripRight(s[..|s| - 1]) else s
  }

  /** `s.strip()` */
  function Strip(s: string): string
  {
    StripRight(StripLeft(s))
  }

  /** Position of the first whitespace character at or after k (or |t|). */
  function TokenEnd(t: string, k: nat): (e: nat)
    requires k <= |t|
    ensures k <= e <= |t|
    ensures forall j :: k <= j < e ==> !IsSpace(t[j])
    ensures e < |t| ==> IsSpace(t[e])
    decreases |t| - k
  {
    if k == |t| || IsSpace(t[k]) then k else TokenEnd(t, k + 1)
  }

  /** `s.split()`: the maximal runs of non-whitespace characters. */
  function SplitWs(s: string): seq<string>
    decreases |s|
  {
    var t := StripLeft(s);
    if |t| == 0 then []
    else
      var k := TokenEnd(t, 0);
      [t[..k]] + SplitWs(t[k..])
  }

  /** `sep.join(parts)` */
  function Join(sep: string, parts: seq<string>): string
  {
    if |parts| == 0 then ""
    else if |parts| == 1 then parts[0]
    else Join(sep, parts[..|parts| - 1]) + sep + parts[|parts| - 1]
  }

  /** `s.split(c)` for a one-character separator: the pieces between separators, empty ones included. */
  function SplitOn(s: string, c: char): (r: seq<string>)
    ensures |r| > 0
    ensures forall k :: 0 <= k < |r| ==> c !in r[k]
  {
    if |s| == 0 then [""]
    else
      var r := SplitOn(s[..|s| - 1], c);
      var x := s[|s| - 1];
      if x == c then r + [""] else r[..|r| - 1] + [r[|r| - 1] + [x]]
  }

  /** Joining the pieces with the separator gives the text back. */
  lemma {:induction false} SplitOnJoin(s: string, c: char)
    ensures Join([c], SplitOn(s, c)) == s
  {
    if |s| > 0 {
      var s' := s[..|s| - 1];
      var x := s[|s| - 1];
      var r := SplitOn(s', c);
      SplitOnJoin(s', c);
      var m := |r| - 1;
      if x == c {
        assert (r + [""])[..|r|] == r;
      } else if m > 0 {
        var r' := r[..m] + [r[m] + [x]];
        assert r'[..m] == r[..m];
      }
      assert s == s' + [x];
    }
  }

  /** Python's normalisation of one slice bound against a length n. */
  function PyIndex(i: int, n: nat): (k: nat)
    ensures k <= n
  {
    if i < 0 then (if i + n < 0 then 0 else i + n)
    else if i > n then n
    else i
  }

  /** `s[start:stop]` with Python's negative and out-of-range bounds. */
  function PySlice<T>(s: seq<T>, start: int, stop: int): seq<T>
  {
    var a := PyIndex(start, |s|);
    var b := PyIndex(stop, |s|);
    if a < b then s[a..b] else []
  }

  /** The quote `repr` uses: double quotes for a text with a single quote and no double quote. */
  function ReprQuote(s: string): char
  {
    if '\'' in s && '"' !in s then '"' else '\''
  }

  const HexDigits := "0123456789abcdef"

  /** One character inside a `repr` quoted with q (ASCII range). */
  function ReprChar(c: char, q: char): string
  {
    if c == '\\' then "\\\\"
    else if c == q then ['\\', q]
    else if c == '\n' then "\\n"
    else if c == '\r' then "\\r"
    else if c == '\t' then "\\t"
    else if c as int < 32 || c as int == 127 then "\\x" + [HexDigits[c as int / 16], HexDigits[c as int % 16]]
    else [c]
  }

  /** `repr(s)` of a string. */
  function PyRepr(s: string): string
  {
    var q := ReprQuote(s);
    [q] + ReprBody(s, q) + [q]
  }

  function ReprBody(s: string, q: char): string
  {
    if |s| == 0 then "" else ReprBody(s[..|s| - 1], q) + ReprChar(s[|s| - 1], q)
  }

  /** `str(xs)` of a list of strings: each element's `repr`, comma separated, in brackets. */
  function PyListRepr(xs: seq<string>): string
  {
    "[" + Join(", ", seq(|xs|, i requires 0 <= i < |xs| => PyRepr(xs[i]))) + "]"
  }

  // ---- facts used by the modules ----

  lemma ContainsAtWitness(s: string, sub: string, i: int)
    requires ContainsAt(s, sub, i)
    ensures Contains(s, sub)
  {
  }

  /** A string contains itself, and every string contains the empty string. */
  lemma ContainsSelf(s: string)
    ensures Contains(s, s) && Contains(s, "")
  {
    assert ContainsAt(s, s, 0);
    assert ContainsAt(s, "", 0);
  }

  lemma ContainsPrefix(s: string, p: string)
    requires p <= s
    ensures Contains(s, p)
  {
    assert ContainsAt(s, p, 0);
  }

  /** An occurrence in a part is an occurrence in the whole. */
  lemma {:induction false} ContainsInConcat(a: string, b: string, sub: string)
    ensures Contains(a, sub) ==> Contains(a + b, sub)
    ensures Contains(b, sub) ==> Contains(a + b, sub)
  {
    if Contains(a, sub) {
      var i :| 0 <= i <= |a| - |sub| && ContainsAt(a, sub, i);
      assert (a + b)[i..i + |sub|] == a[i..i + |sub|];
      assert ContainsAt(a + b, sub, i);
    }
    if Contains(b, sub) {
      var i :| 0 <= i <= |b| - |sub| && ContainsAt(b, sub, i);
      assert (a + b)[|a| + i..|a| + i + |sub|] == b[i..i + |sub|];
      assert ContainsAt(a + b, sub, |a| + i);
    }
  }

  /** A single character occurs in s exactly when it is one of s's characters. */
  lemma ContainsChar(s: string, c: char)
    ensures Contains(s, [c]) <==> c in s
  {
    if c in s {
      var i :| 0 <= i < |s| && s[i] == c;
      assert ContainsAt(s, [c], i);
    }
    if Contains(s, [c]) {
      var i :| 0 <= i <= |s| - 1 && ContainsAt(s, [c], i);
      assert s[i] == s[i..i + 1][0];
    }
  }

  lemma {:induction false} ReplaceAllLength(s: string, pat: string)
    requires |pat| > 0
    ensures |ReplaceAll(s, pat, "")| <= |s|
    decreases |s|
  {
    if |s| > 0 {
      if pat <= s {
        ReplaceAllLength(s[|pat|..], pat);
      } else {
        ReplaceAllLength(s[1..], pat);
      }
    }
  }

  /** A string with no occurrence of the pattern is left as it is. */
  lemma {:induction false} ReplaceAllAbsent(s: string, pat: string, rep: string)
    requires |pat| > 0 && !Contains(s, pat)
    ensures ReplaceAll(s, pat, rep) == s
    decreases |s|
  {
    if |s| > 0 {
      if pat <= s {
        ContainsPrefix(s, pat);
      } else {
        assert s[..1] + s[1..] == s;
        ContainsInConcat(s[..1], s[1..], pat);
        ReplaceAllAbsent(s[1..], pat, rep);
      }
    }
  }

  /** Replacing a single character by a text without it removes every occurrence of it. */
  lemma {:induction false} ReplaceAllRemovesChar(s: string, c: char, rep: string)
    requires c !in rep
    ensures c !in ReplaceAll(s, [c], rep)
    decreases |s|
  {
    if |s| > 0 {
      if [c] <= s {
        ReplaceAllRemovesChar(s[1..], c, rep);
        assert s[1..] == s[|[c]|..];
      } else {
        assert s[0] != c;
        ReplaceAllRemovesChar(s[1..], c, rep);
      }
    }
  }

  /** Replacing characters other than c neither adds nor removes c. */
  lemma {:induction false} ReplaceAllKeepsOtherChar(s: string, d: char, rep: string, c: char)
    requires c != d && c !in rep
    ensures c in ReplaceAll(s, [d], rep) <==> c in s
    decreases |s|
  {
    if |s| > 0 {
      if [d] <= s {
        ReplaceAllKeepsOtherChar(s[1..], d, rep, c);
        assert s == [s[0]] + s[1..];
      } else {
        ReplaceAllKeepsOtherChar(s[1..], d, rep, c);
        assert s == [s[0]] + s[1..];
      }
    }
  }

  lemma {:induction false} CountCharConcat(a: string, b: string, c: char)
    ensures CountChar(a + b, c) == CountChar(a, c) + CountChar(b, c)
  {
    if |a| > 0 {
      assert (a + b)[1..] == a[1..] + b;
      CountCharConcat(a[1..], b, c);
    } else {
      assert a + b == b;
    }
  }

  lemma LowerLength(s: string)
    ensures |Lower(s)| == |s|
  {
  }

  lemma {:induction false} SplitWsHasNoEmptyToken(s: string)
    ensures forall t :: t in SplitWs(s) ==> |t| > 0 && forall j :: 0 <= j < |t| ==> !IsSpace(t[j])
    decreases |s|
  {
    var t := StripLeft(s);
    if |t| > 0 {
      var k := TokenEnd(t, 0);
      SplitWsHasNoEmptyToken(t[k..]);
      var head := t[..k];
      assert SplitWs(s) == [head] + SplitWs(t[k..]);
      assert |head| > 0 && forall j :: 0 <= j < |head| ==> !IsSpace(head[j]) by {
        assert head[0] == t[0];
        forall j | 0 <= j < |head| ensures !IsSpace(head[j]) {
          assert head[j] == t[j];
        }
      }
    }
  }

  /** A string without whitespace characters splits into just itself. */
  lemma SplitWsOfToken(s: string)
    requires |s| > 0 && forall j :: 0 <= j < |s| ==> !IsSpace(s[j])
    ensures SplitWs(s) == [s]
  {
    assert !IsSpace(s[0]);
    assert StripLeft(s) == s;
    var k := TokenEnd(s, 0);
    if k < |s| {
      assert false;
    }
    assert s[..k] == s;
    assert s[k..] == [];
    assert SplitWs(s[k..]) == [];
  }

  /** An occurrence of sub puts its first character in s. */
  lemma ContainsFirstChar(s: string, sub: string)
    requires |sub| > 0 && Contains(s, sub)
    ensures sub[0] in s
  {
    var i :| 0 <= i <= |s| - |sub| && ContainsAt(s, sub, i);
    assert s[i] == s[i..i + |sub|][0];
  }

  /** Deleting a pattern leaves only characters of the original. */
  lemma {:induction false} ReplaceAllDeletes(s: string, pat: string)
    requires |pat| > 0
    ensures forall c :: c in ReplaceAll(s, pat, "") ==> c in s
    decreases |s|
  {
    if |s| > 0 {
      if pat <= s {
        ReplaceAllDeletes(s[|pat|..], pat);
        assert ReplaceAll(s, pat, "") == ReplaceAll(s[|pat|..], pat, "");
        forall c | c in s[|pat|..] ensures c in s {
          var k :| 0 <= k < |s[|pat|..]| && s[|pat|..][k] == c;
          assert s[k + |pat|] == c;
        }
      } else {
        ReplaceAllDeletes(s[1..], pat);
        assert s == [s[0]] + s[1..];
      }
    }
  }

  lemma LowerIdempotent(s: string)
    ensures Lower(Lower(s)) == Lower(s)
  {
  }

  /** A string with no upper-case letter is its own lower case. */
  lemma LowerOfLower(s: string)
    requires forall i :: 0 <= i < |s| ==> !IsUpperChar(s[i])
    ensures Lower(s) == s
  {
  }

  /** No upper-case letter in s. */
  predicate NoUpper(s: string)
  {
    forall i :: 0 <= i < |s| ==> !IsUpperChar(s[i])
  }

  lemma LowerHasNoUpper(s: string, i: nat)
    requires i < |s|
    ensures !IsUpperChar(Lower(s)[i])
  {
  }

  lemma LowerIsNoUpper(s: string)
    ensures NoUpper(Lower(s))
  {
  }

  /** A slice of a string with no upper-case letter has none either. */
  lemma NoUpperSlice(s: string, i: nat, j: nat)
    requires NoUpper(s) && i <= j <= |s|
    ensures NoUpper(s[i..j])
  {
    forall k | 0 <= k < j - i ensures !IsUpperChar(s[i..j][k]) {
      assert s[i..j][k] == s[i + k];
    }
  }

  /** `s.lower().strip()` has no upper-case letter and is no longer than s. */
  lemma StrippedLowerHasNoUpper(s: string)
    ensures NoUpper(Strip(Lower(s))) && |Strip(Lower(s))| <= |s|
  {
    var lo := Lower(s);
    var l := StripLeft(lo);
    var t := StripRight(l);
    LowerIsNoUpper(s);
    NoUpperSlice(lo, |lo| - |l|, |lo|);
    assert l == lo[|lo| - |l|..|lo|];
    NoUpperSlice(l, 0, |t|);
    assert t == l[0..|t|];
  }

  /** A character the pattern does not start at is kept and the rest is processed. */
  lemma ReplaceAllSkipsChar(c: char, s: string, pat: string, rep: string)
    requires |pat| > 0 && !(pat <= [c] + s)
    ensures ReplaceAll([c] + s, pat, rep) == [c] + ReplaceAll(s, pat, rep)
  {
    assert ([c] + s)[1..] == s;
  }

  /** The token starting at k ends at the first whitespace character. */
  lemma {:induction false} TokenEndAt(t: string, k: nat, e: nat)
    requires k <= e <= |t|
    requires forall j :: k <= j < e ==> !IsSpace(t[j])
    requires e < |t| ==> IsSpace(t[e])
    ensures TokenEnd(t, k) == e
    decreases e - k
  {
    if k < e {
      TokenEndAt(t, k + 1, e);
    }
  }

  /** A leading word followed by whitespace splits off as the first token. */
  lemma SplitWsLeadingToken(a: string, rest: string)
    requires |a| > 0 && forall j :: 0 <= j < |a| ==> !IsSpace(a[j])
    requires |rest| > 0 && IsSpace(rest[0])
    ensures SplitWs(a + rest) == [a] + SplitWs(rest)
  {
    var t := a + rest;
    assert t[0] == a[0];
    assert StripLeft(t) == t;
    assert forall j :: 0 <= j < |a| ==> !IsSpace(t[j]) by {
      forall j | 0 <= j < |a| ensures !IsSpace(t[j]) {
        assert t[j] == a[j];
      }
    }
    assert t[|a|] == rest[0];
    TokenEndAt(t, 0, |a|);
    assert t[..|a|] == a && t[|a|..] == rest;
  }

  /** Leading whitespace does not change the split. */
  lemma SplitWsSkipsSpace(c: char, s: string)
    requires IsSpace(c)
    ensures SplitWs([c] + s) == SplitWs(s)
  {
    assert ([c] + s)[1..] == s;
  }

  /** Every character of a token of a split is a character of the split text. */
  lemma {:induction false} SplitWsTokenChar(s: string, w: string, c: char)
    requires w in SplitWs(s) && c in w
    ensures c in s
    decreases |s|
  {
    var t := StripLeft(s);
    var k := TokenEnd(t, 0);
    assert SplitWs(s) == [t[..k]] + SplitWs(t[k..]);
    if w == t[..k] {
      var i :| 0 <= i < k && t[..k][i] == c;
      SuffixChar(s, t, i);
    } else {
      SplitWsTokenChar(t[k..], w, c);
      var i :| 0 <= i < |t| - k && t[k..][i] == c;
      SuffixChar(s, t, k + i);
    }
  }

  /** A token of a text with no upper-case letter has none either. */
  lemma SplitWsKeepsNoUpper(s: string, w: string)
    requires NoUpper(s) && w in SplitWs(s)
    ensures NoUpper(w)
  {
    forall j | 0 <= j < |w| ensures !IsUpperChar(w[j]) {
      SplitWsTokenChar(s, w, w[j]);
      var m :| 0 <= m < |s| && s[m] == w[j];
    }
  }

  lemma SuffixChar(s: string, t: string, j: nat)
    requires |t| <= |s| && t == s[|s| - |t|..] && j < |t|
    ensures t[j] in s
  {
    assert s[|s| - |t| + j] == t[j];
  }
}
