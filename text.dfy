/** The Python `str` operations the program relies on, with their Python meaning:
    `str.isspace`, `strip()`, `split()`, `sep.join(parts)`, `split(sep)`, the
    substring test `t in s`, `startswith` and decimal formatting of a number;
    also the optional value shared by the other modules. */
module PyStr {

  /** A value that may be absent, as Python's `None`. */
  datatype Option<T> = None | Some(value: T)

  /** Python's `str.isspace` on one character: the characters of Unicode
      bidirectional class WS, B or S, or of general category Zs. `strip()` and
      `split()` without arguments use this same set. */
  predicate IsSpace(c: char) {
    var n := c as int;
    (0x09 <= n <= 0x0D) || (0x1C <= n <= 0x20) || n == 0x85 || n == 0xA0 ||
    n == 0x1680 || (0x2000 <= n <= 0x200A) || n == 0x2028 || n == 0x2029 ||
    n == 0x202F || n == 0x205F || n == 0x3000
  }

  predicate AllSpace(s: string) {
    forall i :: 0 <= i < |s| ==> IsSpace(s[i])
  }

  /** A word as `split()` produces it: non-empty, without whitespace. */
  predicate IsWord(w: string) {
    |w| > 0 && forall i :: 0 <= i < |w| ==> !IsSpace(w[i])
  }

  /** `s.lstrip()`: the longest suffix of `s` that does not start with whitespace. */
  function LStrip(s: string): (r: string)
    ensures |r| <= |s| && r == s[|s| - |r|..]
    ensures AllSpace(s[..|s| - |r|])
    ensures r == [] || !IsSpace(r[0])
  {
    if s == [] || !IsSpace(s[0]) then s else LStrip(s[1..])
  }

  /** `s.rstrip()`: the longest prefix of `s` that does not end with whitespace. */
  function RStrip(s: string): (r: string)
    ensures |r| <= |s| && r == s[..|r|]
    ensures AllSpace(s[|r|..])
    ensures r == [] || !IsSpace(r[|r| - 1])
  {
    if s == [] || !IsSpace(s[|s| - 1]) then s else RStrip(s[..|s| - 1])
  }

  /** `s.strip()`. */
  function Strip(s: string): (r: string)
    ensures r == [] || (!IsSpace(r[0]) && !IsSpace(r[|r| - 1]))
  {
    RStrip(LStrip(s))
  }

  /** `not s.strip()` holds exactly when every character of `s` is whitespace. */
  lemma StripEmptyIffAllSpace(s: string)
    ensures Strip(s) == [] <==> AllSpace(s)
  {
    var l := LStrip(s);
    var a := |s| - |l|;
    assert l[0..] == l;
    if Strip(s) == [] {
      assert AllSpace(l[0..]) && l == [];
      assert s[..a] == s;
    }
  }

  /** `strip()` keeps the slice between a whitespace prefix and a whitespace suffix. */
  lemma StripBounds(s: string) returns (a: nat, b: nat)
    ensures a <= b <= |s| && Strip(s) == s[a..b]
    ensures AllSpace(s[..a]) && AllSpace(s[b..])
  {
    var l := LStrip(s);
    a := |s| - |l|;
    var r := RStrip(l);
    b := a + |r|;
    assert l[|r|..] == s[b..];
  }

  /** The length of the word that starts `s`: the index of its first whitespace. */
  function WordEnd(s: string): (k: nat)
    ensures k <= |s|
    ensures forall i :: 0 <= i < k ==> !IsSpace(s[i])
    ensures k < |s| ==> IsSpace(s[k])
  {
    if s == [] || IsSpace(s[0]) then 0 else 1 + WordEnd(s[1..])
  }

  /** `s` with every whitespace character removed. */
  function NonSpace(s: string): (r: string)
    ensures |r| <= |s|
    ensures forall i :: 0 <= i < |r| ==> !IsSpace(r[i])
  {
    if s == [] then [] else (if IsSpace(s[0]) then [] else [s[0]]) + NonSpace(s[1..])
  }

  /** `"".join(parts)`. */
  function Concat(parts: seq<string>): string {
    if parts == [] then [] else parts[0] + Concat(parts[1..])
  }

  lemma {:induction false} NonSpaceConcat(a: string, b: string)
    ensures NonSpace(a + b) == NonSpace(a) + NonSpace(b)
  {
    if a == [] {
      assert a + b == b;
    } else {
      assert (a + b)[0] == a[0] && (a + b)[1..] == a[1..] + b;
      NonSpaceConcat(a[1..], b);
    }
  }

  /** A run without whitespace loses nothing. */
  lemma {:induction false} NonSpaceOfRun(w: string)
    requires forall i :: 0 <= i < |w| ==> !IsSpace(w[i])
    ensures NonSpace(w) == w
  {
    if w != [] {
      assert !IsSpace(w[0]);
      NonSpaceOfRun(w[1..]);
      assert [w[0]] + w[1..] == w;
    }
  }

  /** `s.split()`: the maximal runs of non-whitespace characters, in order.
      Every piece is a word, and together the pieces hold exactly the
      non-whitespace characters of `s`, in order (`SplitAtSpace` and
      `SplitOfWord` say where the cuts fall). */
  function Split(s: string): (ws: seq<string>)
    ensures forall i :: 0 <= i < |ws| ==> IsWord(ws[i])
    ensures Concat(ws) == NonSpace(s)
    decreases |s|
  {
    if s == [] then []
    else if IsSpace(s[0]) then Split(s[1..])
    else
      var k := WordEnd(s);
      assert s[..k] + s[k..] == s;
      NonSpaceConcat(s[..k], s[k..]);
      NonSpaceOfRun(s[..k]);
      [s[..k]] + Split(s[k..])
  }

  /** A whitespace character ends the word before it. */
  lemma {:induction false} WordEndBeforeSpace(x: string, t: string)
    requires t == [] || IsSpace(t[0])
    ensures WordEnd(x + t) == WordEnd(x)
  {
    if x != [] {
      assert (x + t)[0] == x[0] && (x + t)[1..] == x[1..] + t;
      WordEndBeforeSpace(x[1..], t);
    }
  }

  /** `split()` cuts at every whitespace character: the words on either side
      of one are split on their own. */
  lemma {:induction false} SplitAtSpace(x: string, c: char, y: string)
    requires IsSpace(c)
    ensures Split(x + [c] + y) == Split(x) + Split(y)
    decreases |x|
  {
    var s := x + [c] + y;
    if x == [] {
      assert s[1..] == y;
    } else if IsSpace(x[0]) {
      assert s[0] == x[0] && s[1..] == x[1..] + [c] + y;
      SplitAtSpace(x[1..], c, y);
    } else {
      var k := WordEnd(x);
      assert s == x + ([c] + y);
      WordEndBeforeSpace(x, [c] + y);
      assert s[0] == x[0] && k > 0;
      assert s[..k] == x[..k];
      assert s[k..] == x[k..] + [c] + y;
      SplitAtSpace(x[k..], c, y);
    }
  }

  /** `sep.join(parts)`. */
  function Join(sep: string, parts: seq<string>): string {
    if |parts| == 0 then ""
    else if |parts| == 1 then parts[0]
    else parts[0] + sep + Join(sep, parts[1..])
  }

  /** `sep.join(parts)` contains each part as a substring. */
  lemma {:induction false} JoinContainsPart(sep: string, parts: seq<string>, p: nat)
    requires p < |parts|
    ensures Contains(Join(sep, parts), parts[p])
  {
    var j := Join(sep, parts);
    if |parts| == 1 {
      assert OccursAt(j, parts[p], 0);
    } else if p == 0 {
      assert j[..|parts[0]|] == parts[0];
      assert OccursAt(j, parts[p], 0);
    } else {
      var t, rest := parts[p], Join(sep, parts[1..]);
      assert parts[1..][p - 1] == t;
      JoinContainsPart(sep, parts[1..], p - 1);
      var k: int :| OccursAt(rest, t, k);
      assert OccursAt(rest, t, k);
      assert 0 <= k <= |rest| - |t| && rest[k..k + |t|] == t;
      var off := |parts[0]| + |sep|;
      assert j == parts[0] + sep + rest;
      assert j[off + k..off + k + |t|] == rest[k..k + |t|];
      assert OccursAt(j, t, off + k);
    }
  }

  /** A non-empty join of words starts with the first word's first character
      and ends with the last word's last character. */
  lemma {:induction false} JoinOfWordsEdges(ws: seq<string>)
    requires |ws| > 0 && forall i :: 0 <= i < |ws| ==> IsWord(ws[i])
    ensures |Join(" ", ws)| > 0
    ensures IsWord(ws[0]) && Join(" ", ws)[0] == ws[0][0]
    ensures IsWord(ws[|ws| - 1]) && Join(" ", ws)[|Join(" ", ws)| - 1] == ws[|ws| - 1][|ws[|ws| - 1]| - 1]
  {
    if |ws| > 1 {
      JoinOfWordsEdges(ws[1..]);
    }
  }

  /** After a word comes whitespace or nothing: `WordEnd` stops right there. */
  lemma {:induction false} WordEndAfterWord(w: string, t: string)
    requires IsWord(w)
    requires t == [] || IsSpace(t[0])
    ensures WordEnd(w + t) == |w|
    decreases |w|
  {
    if |w| > 1 {
      assert (w + t)[1..] == w[1..] + t;
      WordEndAfterWord(w[1..], t);
    } else {
      assert (w + t)[1..] == t;
    }
  }

  /** Splitting a space-joined list of words gives back that list. */
  lemma {:induction false} SplitJoin(ws: seq<string>)
    requires forall i :: 0 <= i < |ws| ==> IsWord(ws[i])
    ensures Split(Join(" ", ws)) == ws
  {
    if |ws| == 0 {
    } else if |ws| == 1 {
      var w := ws[0];
      WordEndAfterWord(w, []);
      assert w + [] == w;
      assert w[|w|..] == [];
    } else {
      var w, rest := ws[0], Join(" ", ws[1..]);
      var s := w + " " + rest;
      assert s == w + (" " + rest);
      WordEndAfterWord(w, " " + rest);
      assert s[..|w|] == w;
      assert s[|w|..] == " " + rest;
      assert (" " + rest)[1..] == rest;
      SplitJoin(ws[1..]);
      assert ws == [w] + ws[1..];
    }
  }

  /** A word on its own is not cut. */
  lemma SplitOfWord(w: string)
    requires IsWord(w)
    ensures Split(w) == [w]
  {
    SplitJoin([w]);
  }

  /** `s.split(sep)` for a one-character separator: the pieces between the
      occurrences of `sep`, always at least one. */
  function SplitOn(s: string, sep: char): (parts: seq<string>)
    ensures |parts| >= 1
  {
    if s == [] then [""]
    else
      var rest := SplitOn(s[1..], sep);
      if s[0] == sep then [""] + rest
      else [[s[0]] + rest[0]] + rest[1..]
  }

  /** The number of occurrences of `c` in `s`. */
  function Count(s: string, c: char): nat {
    if s == [] then 0 else (if s[0] == c then 1 else 0) + Count(s[1..], c)
  }

  /** `s.split(sep)` has one more piece than `s` has separators, no piece contains
      the separator, and joining the pieces with the separator gives `s` back. */
  lemma {:induction false} SplitOnJoin(s: string, sep: char)
    ensures |SplitOn(s, sep)| == Count(s, sep) + 1
    ensures forall i :: 0 <= i < |SplitOn(s, sep)| ==> sep !in SplitOn(s, sep)[i]
    ensures Join([sep], SplitOn(s, sep)) == s
  {
    if s != [] {
      var rest := SplitOn(s[1..], sep);
      SplitOnJoin(s[1..], sep);
      if s[0] == sep {
        assert SplitOn(s, sep) == [""] + rest;
        if |rest| == 1 {
          assert Join([sep], [""] + rest) == [sep] + rest[0];
        } else {
          assert ([""] + rest)[1..] == rest;
        }
        assert s == [s[0]] + s[1..];
      } else {
        var parts := [[s[0]] + rest[0]] + rest[1..];
        assert SplitOn(s, sep) == parts;
        forall i | 0 <= i < |parts| ensures sep !in parts[i] {
          if i > 0 { assert parts[i] == rest[i]; }
        }
        if |rest| == 1 {
          assert Join([sep], parts) == [s[0]] + rest[0];
        } else {
          assert parts[1..] == rest[1..];
          assert Join([sep], rest) == rest[0] + [sep] + Join([sep], rest[1..]);
        }
        assert s == [s[0]] + s[1..];
      }
    }
  }

  /** A string without the separator is split into itself alone. */
  lemma {:induction false} SplitOnNoSep(s: string, sep: char)
    requires sep !in s
    ensures SplitOn(s, sep) == [s]
  {
    if s != [] {
      assert sep !in s[1..] by {
        forall i | 0 <= i < |s[1..]| ensures s[1..][i] != sep { assert s[1..][i] == s[i + 1]; }
      }
      SplitOnNoSep(s[1..], sep);
      assert [s[0]] + s[1..] == s;
    }
  }

  /** One step of `SplitOn`: a leading separator starts a new piece, any other
      character joins the first piece. */
  lemma SplitOnCons(c: char, t: string, sep: char)
    ensures SplitOn([c] + t, sep) ==
            if c == sep then [""] + SplitOn(t, sep) else [[c] + SplitOn(t, sep)[0]] + SplitOn(t, sep)[1..]
  {
    assert ([c] + t)[0] == c && ([c] + t)[1..] == t;
  }

  /** Splitting at a separator splits each side on its own. */
  lemma {:induction false} SplitOnConcat(x: string, y: string, sep: char)
    ensures SplitOn(x + [sep] + y, sep) == SplitOn(x, sep) + SplitOn(y, sep)
  {
    if x == [] {
      SplitOnCons(sep, y, sep);
      assert x + [sep] + y == [sep] + y;
    } else {
      var c, t := x[0], x[1..] + [sep] + y;
      var px, py := SplitOn(x[1..], sep), SplitOn(y, sep);
      calc {
        SplitOn(x + [sep] + y, sep);
        { assert x + [sep] + y == [c] + t; }
        SplitOn([c] + t, sep);
        { SplitOnCons(c, t, sep); SplitOnConcat(x[1..], y, sep); }
        if c == sep then [""] + (px + py) else [[c] + (px + py)[0]] + (px + py)[1..];
        { if c != sep { ExtendFirstPiece(c, px, py); } }
        (if c == sep then [""] + px else [[c] + px[0]] + px[1..]) + py;
        { SplitOnCons(c, x[1..], sep); assert x == [c] + x[1..]; }
        SplitOn(x, sep) + py;
      }
    }
  }

  /** Extending the first piece commutes with appending more pieces. */
  lemma ExtendFirstPiece(c: char, px: seq<string>, py: seq<string>)
    requires |px| >= 1
    ensures [[c] + (px + py)[0]] + (px + py)[1..] == [[c] + px[0]] + px[1..] + py
  {
    assert (px + py)[0] == px[0] && (px + py)[1..] == px[1..] + py;
  }

  /** Growing a prefix by one element. */
  lemma PrefixSnoc<T>(s: seq<T>, i: nat)
    requires i < |s|
    ensures s[..i + 1] == s[..i] + [s[i]] && s[..i + 1][..i] == s[..i] && s[..i + 1][i] == s[i]
    ensures i + 1 == |s| ==> s[..i + 1] == s
  {
  }

  /** `t` occurs in `s` starting at index `i`. */
  predicate OccursAt(s: string, t: string, i: int) {
    0 <= i <= |s| - |t| && s[i..i + |t|] == t
  }

  /** The substring test `t in s`. */
  predicate Contains(s: string, t: string) {
    exists i | 0 <= i <= |s| - |t| :: OccursAt(s, t, i)
  }

  /** `s.startswith(t)`. */
  predicate StartsWith(s: string, t: string) {
    |t| <= |s| && s[..|t|] == t
  }

  function Digit(d: nat): (c: char)
    requires d < 10
    ensures '0' <= c <= '9'
  {
    ('0' as int + d) as char
  }

  /** `str(n)` / `f"{n}"` for a natural number: its decimal digits. */
  function NatToString(n: nat): (s: string)
    ensures |s| >= 1 && (n >= 10 ==> |s| >= 2)
    ensures forall i :: 0 <= i < |s| ==> '0' <= s[i] <= '9'
  {
    if n < 10 then [Digit(n)] else NatToString(n / 10) + [Digit(n % 10)]
  }

  /** Different numbers are written differently. */
  lemma {:induction false} NatToStringInjective(a: nat, b: nat)
    requires NatToString(a) == NatToString(b)
    ensures a == b
  {
    var sa, sb := NatToString(a), NatToString(b);
    if a >= 10 && b >= 10 {
      assert sa[..|sa| - 1] == NatToString(a / 10);
      assert sb[..|sb| - 1] == NatToString(b / 10);
      NatToStringInjective(a / 10, b / 10);
      assert Digit(a % 10) == sa[|sa| - 1] == Digit(b % 10);
    }
  }
}
