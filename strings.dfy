/** The string operations the console relies on: `toLowerCase`, `trim`,
    `includes`, `split`, `join` and the `<` order on strings. */
module Strings {

  // ---------------------------------------------------------------- lowering

  /** ASCII upper-case letters become lower case; every other character is kept. */
  function LowerChar(c: char): char
  {
    if 'A' <= c <= 'Z' then (c as int + 32) as char else c
  }

  function Lower(s: string): (r: string)
    ensures |r| == |s|
    ensures forall k :: 0 <= k < |s| ==> r[k] == LowerChar(s[k])
  {
    seq(|s|, k requires 0 <= k < |s| => LowerChar(s[k]))
  }

  // ---------------------------------------------------------------- trimming

  /** The characters `String.prototype.trim` removes: white space and line terminators. */
  predicate IsSpace(c: char)
  {
    c == '\t' || c == '\n' || c == '\U{000B}' || c == '\U{000C}' || c == '\r' || c == ' '
    || c == '\U{00A0}' || c == '\U{1680}' || ('\U{2000}' <= c <= '\U{200A}')
    || c == '\U{2028}' || c == '\U{2029}' || c == '\U{202F}' || c == '\U{205F}'
    || c == '\U{3000}' || c == '\U{FEFF}'
  }

  /** Neither end of `s` is white space. */
  predicate IsTrimmed(s: string)
  {
    s == [] || (!IsSpace(s[0]) && !IsSpace(s[|s| - 1]))
  }

  function TrimStart(s: string): (r: string)
    ensures |r| <= |s| && r == s[|s| - |r|..]
    ensures r == [] || !IsSpace(r[0])
    ensures forall k :: 0 <= k < |s| - |r| ==> IsSpace(s[k])
  {
    if s != [] && IsSpace(s[0]) then TrimStart(s[1..]) else s
  }

  function TrimEnd(s: string): (r: string)
    ensures |r| <= |s| && r == s[..|r|]
    ensures r == [] || !IsSpace(r[|r| - 1])
    ensures forall k :: |r| <= k < |s| ==> IsSpace(s[k])
  {
    if s != [] && IsSpace(s[|s| - 1]) then TrimEnd(s[..|s| - 1]) else s
  }

  /** Every character of `s` is white space. */
  predicate AllSpace(s: string)
  {
    forall k :: 0 <= k < |s| ==> IsSpace(s[k])
  }

  /** The length of the white-space run `s` starts with. */
  function LeadingSpace(s: string): (n: nat)
    ensures n <= |s| && AllSpace(s[..n])
    ensures n < |s| ==> !IsSpace(s[n])
  {
    if s != [] && IsSpace(s[0]) then
      var m := LeadingSpace(s[1..]);
      assert forall k :: 0 <= k < m ==> s[1..][..m][k] == s[k + 1];
      m + 1
    else 0
  }

  /** `r` is `s` with its leading white-space run cut off and only white space after `r`. */
  predicate StrippedOf(r: string, s: string)
  {
    var i := LeadingSpace(s);
    i + |r| <= |s| && r == s[i..i + |r|] && AllSpace(s[i + |r|..])
  }

  /** `s.trim()`: white space removed from both ends. */
  function Trim(s: string): (r: string)
    ensures IsTrimmed(r)
  {
    TrimEnd(TrimStart(s))
  }

  /** What `trim` keeps: the text after the leading white space, up to where only white space
      follows. With `IsTrimmed` this fixes the result. */
  lemma TrimIsInfix(s: string)
    ensures StrippedOf(Trim(s), s)
  {
    TrimStartDrops(s);
    StrippedFrom(s, TrimStart(s), TrimEnd(TrimStart(s)));
  }

  lemma StrippedFrom(s: string, t: string, r: string)
    requires t == s[LeadingSpace(s)..]
    requires |r| <= |t| && r == t[..|r|]
    requires forall k :: |r| <= k < |t| ==> IsSpace(t[k])
    ensures StrippedOf(r, s)
  {
    var i := LeadingSpace(s);
    SpaceAfter(t, |r|);
    assert s[i + |r|..] == t[|r|..];
    assert s[i..i + |r|] == t[..|r|];
  }

  lemma SpaceAfter(t: string, n: nat)
    requires n <= |t| && forall k :: n <= k < |t| ==> IsSpace(t[k])
    ensures AllSpace(t[n..])
  {
    assert forall k :: 0 <= k < |t| - n ==> t[n..][k] == t[n + k];
  }

  /** `TrimStart` drops exactly the leading white-space run. */
  lemma {:induction false} TrimStartDrops(s: string)
    ensures TrimStart(s) == s[LeadingSpace(s)..]
  {
    if s != [] && IsSpace(s[0]) {
      TrimStartDrops(s[1..]);
      assert s[1..][LeadingSpace(s[1..])..] == s[LeadingSpace(s)..];
    }
  }

  /** What `trim` keeps: an infix of the input, empty exactly when the input is all white space. */
  lemma TrimShape(s: string)
    ensures |Trim(s)| <= |s|
    ensures forall c :: c in Trim(s) ==> c in s
    ensures Trim(s) == [] <==> AllSpace(s)
  {
    var t := TrimStart(s);
    var r := TrimEnd(t);
    assert forall c :: c in r ==> c in t;
    assert forall c :: c in t ==> c in s;
    assert r == [] ==> t == [];
  }

  /** Trimming brings in no character that was not there. */
  lemma TrimKeepsOut(s: string, c: char)
    requires c !in s
    ensures c !in Trim(s)
  {
    TrimShape(s);
  }

  /** Trimming a string that is already trimmed changes nothing. */
  lemma TrimTrimmed(s: string)
    requires IsTrimmed(s)
    ensures Trim(s) == s
  {
  }

  /** White space in front of a string does not survive `trim`. */
  lemma {:induction false} TrimAfterSpace(c: char, s: string)
    requires IsSpace(c)
    ensures Trim([c] + s) == Trim(s)
  {
    assert ([c] + s)[1..] == s;
  }

  // ---------------------------------------------------------------- includes

  /** `s.includes(t)`: `t` occurs in `s` as a contiguous block. */
  predicate Includes(s: string, t: string)
    decreases |s|
  {
    t <= s || (s != [] && Includes(s[1..], t))
  }

  /** `t` occurs in `s` starting at index `i`. */
  predicate OccursAt(s: string, t: string, i: int)
  {
    0 <= i <= |s| - |t| && s[i..i + |t|] == t
  }

  /** `Includes` means what `includes` promises: an occurrence at some index. */
  lemma {:induction false} IncludesIffOccurs(s: string, t: string)
    ensures Includes(s, t) <==> exists i :: OccursAt(s, t, i)
  {
    if t <= s {
      assert OccursAt(s, t, 0);
    } else if s != [] {
      IncludesIffOccurs(s[1..], t);
      if exists i :: OccursAt(s, t, i) {
        var i :| OccursAt(s, t, i);
        OccursLater(s, t, i);
      }
      if Includes(s[1..], t) {
        var i :| OccursAt(s[1..], t, i);
        OccursInTail(s, t, i);
      }
    }
  }

  /** An occurrence that is not a prefix is an occurrence in the tail, one place earlier. */
  lemma OccursLater(s: string, t: string, i: int)
    requires OccursAt(s, t, i) && !(t <= s)
    ensures i > 0 && OccursAt(s[1..], t, i - 1)
  {
    assert s[1..][i - 1..i - 1 + |t|] == s[i..i + |t|];
  }

  /** An occurrence in the tail is an occurrence in the whole, one place later. */
  lemma OccursInTail(s: string, t: string, i: int)
    requires s != [] && OccursAt(s[1..], t, i)
    ensures OccursAt(s, t, i + 1)
  {
    assert s[i + 1..i + 1 + |t|] == s[1..][i..i + |t|];
  }

  /** The empty string occurs in every string. */
  lemma IncludesEmpty(s: string)
    ensures Includes(s, [])
  {
  }

  // ---------------------------------------------------------------- split and join

  /** `s.split(sep)`: the pieces between separators; there is always one more piece than separators. */
  function Split(s: string, sep: char): (r: seq<string>)
    ensures |r| >= 1
    ensures forall k :: 0 <= k < |r| ==> sep !in r[k]
    decreases |s|
  {
    if s == [] then [[]]
    else
      var rest := Split(s[1..], sep);
      if s[0] == sep then [[]] + rest else [[s[0]] + rest[0]] + rest[1..]
  }

  /** `parts.join(sep)`. */
  function Join(sep: string, parts: seq<string>): string
  {
    if |parts| == 0 then []
    else if |parts| == 1 then parts[0]
    else parts[0] + sep + Join(sep, parts[1..])
  }

  /** Each of `parts` with `prefix` in front. */
  function Prefixed(prefix: string, parts: seq<string>): (r: seq<string>)
    ensures |r| == |parts|
    ensures forall k :: 0 <= k < |parts| ==> r[k] == prefix + parts[k]
  {
    if parts == [] then [] else [prefix + parts[0]] + Prefixed(prefix, parts[1..])
  }

  lemma {:induction false} JoinLongerSeparatorTail(sep: string, extra: string, parts: seq<string>)
    requires |parts| >= 1
    ensures extra + Join(sep + extra, parts) == Join(sep, Prefixed(extra, parts))
  {
    if |parts| > 1 {
      var q := Prefixed(extra, parts);
      JoinLongerSeparatorTail(sep, extra, parts[1..]);
      assert q[1..] == Prefixed(extra, parts[1..]);
      var tail := Join(sep + extra, parts[1..]);
      assert extra + (parts[0] + (sep + extra) + tail) == (extra + parts[0]) + sep + (extra + tail);
    }
  }

  /** Joining with `sep + extra` is joining with `sep` after putting `extra` in front of every
      part but the first. */
  lemma JoinLongerSeparator(sep: string, extra: string, parts: seq<string>)
    requires |parts| >= 1
    ensures Join(sep + extra, parts) == Join(sep, [parts[0]] + Prefixed(extra, parts[1..]))
  {
    if |parts| > 1 {
      var q := [parts[0]] + Prefixed(extra, parts[1..]);
      var tail := Join(sep + extra, parts[1..]);
      JoinLongerSeparatorTail(sep, extra, parts[1..]);
      assert q[0] == parts[0] && q[1..] == Prefixed(extra, parts[1..]);
      assert parts[0] + (sep + extra) + tail == parts[0] + sep + (extra + tail);
    }
  }

  /** A join of nonempty parts starts with the first part's first character and ends with the
      last part's last character. */
  lemma {:induction false} JoinEnds(sep: string, parts: seq<string>)
    requires |parts| >= 1
    requires forall k :: 0 <= k < |parts| ==> |parts[k]| > 0
    ensures |Join(sep, parts)| > 0
    ensures Join(sep, parts)[0] == parts[0][0]
    ensures Join(sep, parts)[|Join(sep, parts)| - 1] == parts[|parts| - 1][|parts[|parts| - 1]| - 1]
  {
    if |parts| > 1 {
      JoinEnds(sep, parts[1..]);
    }
  }

  /** A separator-free piece followed by the separator splits off as its own piece. */
  lemma {:induction false} SplitAfterPiece(a: string, sep: char, t: string)
    requires sep !in a
    ensures Split(a + [sep] + t, sep) == [a] + Split(t, sep)
  {
    if a == [] {
      assert a + [sep] + t == [sep] + t;
      assert ([sep] + t)[1..] == t;
    } else {
      SplitAfterPiece(a[1..], sep, t);
      assert (a + [sep] + t)[1..] == a[1..] + [sep] + t;
      assert [a[0]] + a[1..] == a;
    }
  }

  /** Splitting a separator-free string yields that string alone. */
  lemma {:induction false} SplitWithoutSeparator(a: string, sep: char)
    requires sep !in a
    ensures Split(a, sep) == [a]
  {
    if a != [] {
      SplitWithoutSeparator(a[1..], sep);
      assert [a[0]] + a[1..] == a;
    }
  }

  /** `split` undoes `join` when no part contains the separator. */
  lemma {:induction false} SplitJoin(parts: seq<string>, sep: char)
    requires |parts| >= 1
    requires forall k :: 0 <= k < |parts| ==> sep !in parts[k]
    ensures Split(Join([sep], parts), sep) == parts
  {
    if |parts| == 1 {
      SplitWithoutSeparator(parts[0], sep);
    } else {
      SplitJoin(parts[1..], sep);
      SplitAfterPiece(parts[0], sep, Join([sep], parts[1..]));
    }
  }

  // ---------------------------------------------------------------- order

  /** JavaScript's `a < b` on strings: lexicographic by character, a proper prefix first. */
  predicate LexLess(a: string, b: string)
    decreases |a|
  {
    if a == [] then b != []
    else if b == [] then false
    else if a[0] != b[0] then a[0] < b[0]
    else LexLess(a[1..], b[1..])
  }

  /** Two different strings are always ordered one way. */
  lemma {:induction false} LexLessTotal(a: string, b: string)
    ensures LexLess(a, b) || a == b || LexLess(b, a)
    decreases |a|
  {
    if a != [] && b != [] && a[0] == b[0] {
      LexLessTotal(a[1..], b[1..]);
      if a[1..] == b[1..] {
        assert a == [a[0]] + a[1..] && b == [b[0]] + b[1..];
      }
    }
  }

  lemma {:induction false} LexLessAsymmetric(a: string, b: string)
    ensures !(LexLess(a, b) && LexLess(b, a))
    decreases |a|
  {
    if a != [] && b != [] && a[0] == b[0] { LexLessAsymmetric(a[1..], b[1..]); }
  }

  lemma {:induction false} LexLessTransitive(a: string, b: string, c: string)
    requires LexLess(a, b) && LexLess(b, c)
    ensures LexLess(a, c)
    decreases |a|
  {
    if a != [] && a[0] == b[0] && b[0] == c[0] {
      LexLessTransitive(a[1..], b[1..], c[1..]);
    }
  }
}
