/**
 * The JavaScript string primitives the engine relies on, on `seq<char>`:
 * prefix tests, first-occurrence search, `replace(new RegExp(p, 'g'), r)` for a
 * pattern without regular-expression metacharacters, `split(sep)` with a
 * non-empty separator, and decimal rendering of a natural number.
 */
module Strings {
  import opened Wrappers

  predicate StartsWith(s: string, p: string) {
    |p| <= |s| && s[..|p|] == p
  }

  predicate EndsWith(s: string, p: string) {
    |p| <= |s| && s[|s| - |p|..] == p
  }

  /** A text ends with whatever was appended to it last. */
  lemma EndsWithAppend(a: string, b: string)
    ensures EndsWith(a + b, b)
  {
    assert (a + b)[|a + b| - |b|..] == b;
  }

  /** A prefix of a prefix is a prefix, and a prefix stays one when more is appended. */
  lemma StartsWithTrans(s: string, p: string, q: string, tail: string)
    requires StartsWith(s, p) && StartsWith(p, q)
    ensures StartsWith(s, q) && StartsWith(s + tail, q)
  {
    assert s[..|q|] == p[..|q|];
    assert (s + tail)[..|q|] == s[..|q|];
  }

  /** `p` occurs somewhere in `s`. */
  predicate Contains(s: string, p: string)
    decreases |s|
  {
    StartsWith(s, p) || (|s| > 0 && Contains(s[1..], p))
  }

  /** An occurrence of `p` is a position where a suffix of `s` starts with `p`. */
  lemma ContainsAt(s: string, p: string)
    ensures Contains(s, p) <==> exists j :: 0 <= j <= |s| && StartsWith(s[j..], p)
    decreases |s|
  {
    assert s[0..] == s;
    if |s| > 0 {
      ContainsAt(s[1..], p);
      if exists j :: 0 <= j <= |s[1..]| && StartsWith(s[1..][j..], p) {
        var j :| 0 <= j <= |s[1..]| && StartsWith(s[1..][j..], p);
        assert s[1..][j..] == s[j + 1..];
      }
      if exists j :: 0 <= j <= |s| && StartsWith(s[j..], p) {
        var j :| 0 <= j <= |s| && StartsWith(s[j..], p);
        if j > 0 {
          assert s[1..][j - 1..] == s[j..];
        }
      }
    }
  }

  /** The first index at which `p` occurs in `s` (JavaScript `indexOf`). */
  function IndexOf(s: string, p: string): (r: Option<nat>)
    requires |p| > 0
    ensures r.Some? ==> r.value + |p| <= |s| && s[r.value..r.value + |p|] == p
    decreases |s|
  {
    if |s| < |p| then None
    else if StartsWith(s, p) then Some(0)
    else
      match IndexOf(s[1..], p)
      case None => None
      case Some(k) => Some(k + 1)
  }

  /** `IndexOf` finds the first occurrence, and finds none only when there is none. */
  lemma {:induction false} IndexOfIsFirst(s: string, p: string)
    requires |p| > 0
    ensures IndexOf(s, p).Some? ==> forall j :: 0 <= j < IndexOf(s, p).value ==> !StartsWith(s[j..], p)
    ensures IndexOf(s, p).None? ==> forall j :: 0 <= j <= |s| ==> !StartsWith(s[j..], p)
    decreases |s|
  {
    if |s| < |p| {
      assert forall j :: 0 <= j <= |s| ==> |s[j..]| < |p|;
    } else if !StartsWith(s, p) {
      IndexOfIsFirst(s[1..], p);
      assert forall j :: 1 <= j <= |s| ==> s[j..] == s[1..][j - 1..];
      assert s[0..] == s;
    }
  }

  /** `IndexOf` only reports an occurrence that is there. */
  lemma IndexOfFound(s: string, p: string)
    requires |p| > 0
    ensures IndexOf(s, p).Some? ==> Contains(s, p)
  {
    ContainsAt(s, p);
    var r := IndexOf(s, p);
    if r.Some? {
      assert s[r.value..][..|p|] == p;
    }
  }

  /** When `p` starts at `i` and at no earlier position, `IndexOf` returns `i`. */
  lemma {:induction false} IndexOfAt(s: string, p: string, i: nat)
    requires |p| > 0
    requires i <= |s| && StartsWith(s[i..], p)
    requires forall j :: 0 <= j < i ==> !StartsWith(s[j..], p)
    ensures IndexOf(s, p) == Some(i)
    decreases i
  {
    assert s[0..] == s;
    if i > 0 {
      assert !StartsWith(s, p);
      forall j | 0 <= j < i - 1
        ensures !StartsWith(s[1..][j..], p)
      {
        assert s[1..][j..] == s[j + 1..];
      }
      assert s[1..][i - 1..] == s[i..];
      IndexOfAt(s[1..], p, i - 1);
    }
  }

  /** A prefix that ends before the first occurrence of `p` does not contain `p`. */
  lemma NoOccurrenceBefore(s: string, p: string, i: nat)
    requires i <= |s|
    requires forall j :: 0 <= j < i ==> !StartsWith(s[j..], p)
    requires |p| > 0
    ensures !Contains(s[..i], p)
  {
    ContainsAt(s[..i], p);
    forall j | 0 <= j <= i
      ensures !StartsWith(s[..i][j..], p)
    {
      if j + |p| <= i {
        assert s[..i][j..][..|p|] == s[j..][..|p|];
      }
    }
  }

  /**
   * `s.replace(new RegExp(pat, 'g'), rep)`: scanning left to right, each
   * non-overlapping occurrence of `pat` is replaced by `rep`.
   */
  function ReplaceAll(s: string, pat: string, rep: string): string
    requires |pat| > 0
    decreases |s|
  {
    if |s| == 0 then ""
    else if StartsWith(s, pat) then rep + ReplaceAll(s[|pat|..], pat, rep)
    else [s[0]] + ReplaceAll(s[1..], pat, rep)
  }

  /** Reference definition: every occurrence of the character `c` becomes `rep`, character by character. */
  function ExpandChar(s: string, c: char, rep: string): string
    decreases |s|
  {
    if |s| == 0 then ""
    else (if s[0] == c then rep else [s[0]]) + ExpandChar(s[1..], c, rep)
  }

  /** Replacing a one-character pattern is the character-by-character expansion. */
  lemma {:induction false} ReplaceCharIsExpand(s: string, c: char, rep: string)
    ensures ReplaceAll(s, [c], rep) == ExpandChar(s, c, rep)
    decreases |s|
  {
    if |s| > 0 {
      ReplaceCharIsExpand(s[1..], c, rep);
      assert StartsWith(s, [c]) <==> s[0] == c;
    }
  }

  /** Expanding `c` into a text free of `c` leaves no `c` behind, and everything but `c` is kept. */
  lemma {:induction false} ExpandCharRemoves(s: string, c: char, rep: string)
    requires c !in rep
    ensures c !in ExpandChar(s, c, rep)
    ensures c !in s ==> ExpandChar(s, c, rep) == s
    decreases |s|
  {
    if |s| > 0 {
      ExpandCharRemoves(s[1..], c, rep);
      assert s == [s[0]] + s[1..];
    }
  }

  /** Expanding `c` brings in no character that neither the text nor the replacement had. */
  lemma {:induction false} ExpandCharKeepsOut(s: string, c: char, rep: string, d: char)
    requires d !in s && d !in rep
    ensures d !in ExpandChar(s, c, rep)
    decreases |s|
  {
    if |s| > 0 {
      ExpandCharKeepsOut(s[1..], c, rep, d);
      assert s[0] in s;
    }
  }

  /** Expansion distributes over concatenation. */
  lemma {:induction false} ExpandCharAppend(a: string, b: string, c: char, rep: string)
    ensures ExpandChar(a + b, c, rep) == ExpandChar(a, c, rep) + ExpandChar(b, c, rep)
    decreases |a|
  {
    if |a| > 0 {
      ExpandCharAppend(a[1..], b, c, rep);
      assert (a + b)[1..] == a[1..] + b;
    } else {
      assert a + b == b;
    }
  }

  /**
   * `s.split(sep)` for a non-empty separator: the pieces between the
   * non-overlapping occurrences of `sep`, found left to right.
   */
  function Split(s: string, sep: string): (parts: seq<string>)
    requires |sep| > 0
    ensures |parts| >= 1
    decreases |s|
  {
    match IndexOf(s, sep)
    case None => [s]
    case Some(i) => [s[..i]] + Split(s[i + |sep|..], sep)
  }

  /** No piece of a split contains the separator. */
  lemma {:induction false} SplitPiecesFree(s: string, sep: string)
    requires |sep| > 0
    ensures forall i :: 0 <= i < |Split(s, sep)| ==> !Contains(Split(s, sep)[i], sep)
    decreases |s|
  {
    var r := IndexOf(s, sep);
    if r.Some? {
      var i := r.value;
      IndexOfIsFirst(s, sep);
      NoOccurrenceBefore(s, sep, i);
      SplitPiecesFree(s[i + |sep|..], sep);
      assert Split(s, sep) == [s[..i]] + Split(s[i + |sep|..], sep);
    } else {
      IndexOfIsFirst(s, sep);
      assert s[..|s|] == s;
      NoOccurrenceBefore(s, sep, |s|);
    }
  }

  /** The first piece of a split is a prefix of the text. */
  lemma SplitHeadIsPrefix(s: string, sep: string)
    requires |sep| > 0
    ensures StartsWith(s, Split(s, sep)[0])
  {
    var r := IndexOf(s, sep);
    if r.Some? {
      assert Split(s, sep)[0] == s[..r.value];
    } else {
      assert Split(s, sep)[0] == s;
    }
  }

  /** The first two pieces of a split sit at the front of the text, around the first separator. */
  lemma SplitFirstTwo(s: string, sep: string)
    requires |sep| > 0
    requires |Split(s, sep)| >= 2
    ensures StartsWith(s, Split(s, sep)[0] + sep + Split(s, sep)[1])
  {
    SplitSecond(s, sep);
    var i := IndexOf(s, sep).value;
    SplitHeadIsPrefix(s[i + |sep|..], sep);
    PrefixAround(s, i, sep, Split(s, sep)[1]);
  }

  /** A split into two or more pieces cut at the first separator. */
  lemma SplitSecond(s: string, sep: string)
    requires |sep| > 0
    requires |Split(s, sep)| >= 2
    ensures IndexOf(s, sep).Some?
    ensures var i := IndexOf(s, sep).value;
      Split(s, sep)[0] == s[..i] && Split(s, sep)[1] == Split(s[i + |sep|..], sep)[0]
  {
    var r := IndexOf(s, sep);
    if r.Some? {
      var tail := Split(s[r.value + |sep|..], sep);
      assert Split(s, sep) == [s[..r.value]] + tail;
      assert ([s[..r.value]] + tail)[1] == tail[0];
    }
  }

  /** Slicing arithmetic behind `SplitFirstTwo`. */
  lemma PrefixAround(s: string, i: nat, sep: string, head: string)
    requires i + |sep| <= |s| && s[i..i + |sep|] == sep
    requires StartsWith(s[i + |sep|..], head)
    ensures StartsWith(s, s[..i] + sep + head)
  {
    var n := i + |sep| + |head|;
    assert s[..n] == s[..i] + s[i..i + |sep|] + s[i + |sep|..][..|head|];
  }

  /** `parts.join(sep)`. */
  function Join(parts: seq<string>, sep: string): string
    decreases |parts|
  {
    if |parts| == 0 then ""
    else if |parts| == 1 then parts[0]
    else parts[0] + sep + Join(parts[1..], sep)
  }

  /** Concatenation is associative. */
  lemma AppendAssoc<T>(a: seq<T>, b: seq<T>, c: seq<T>)
    ensures (a + b) + c == a + (b + c)
  {
  }

  /** `Join` grows at the back by the separator and the new piece. */
  lemma {:induction false} JoinSnoc(parts: seq<string>, p: string, sep: string)
    ensures Join(parts + [p], sep) == if |parts| == 0 then p else Join(parts, sep) + sep + p
    decreases |parts|
  {
    if |parts| > 1 {
      JoinSnoc(parts[1..], p, sep);
      assert (parts + [p])[1..] == parts[1..] + [p];
    } else if |parts| == 1 {
      assert (parts + [p])[1..] == [p];
    }
  }

  /** Joining the pieces of a split with the same separator gives back the original text. */
  lemma {:induction false} JoinSplit(s: string, sep: string)
    requires |sep| > 0
    ensures Join(Split(s, sep), sep) == s
    decreases |s|
  {
    var r := IndexOf(s, sep);
    if r.Some? {
      var i := r.value;
      var rest := s[i + |sep|..];
      var tail := Split(rest, sep);
      assert Split(s, sep) == [s[..i]] + tail;
      JoinSplit(rest, sep);
      JoinCons(s[..i], tail, sep);
      CutAround(s, i, sep);
    } else {
      assert Split(s, sep) == [s];
    }
  }

  /** `Join` grows at the front by a piece and the separator. */
  lemma JoinCons(p: string, tail: seq<string>, sep: string)
    requires |tail| >= 1
    ensures Join([p] + tail, sep) == p + sep + Join(tail, sep)
  {
    assert ([p] + tail)[1..] == tail;
  }

  /** A text is its part before an occurrence, the occurrence, and its part after. */
  lemma CutAround(s: string, i: nat, sep: string)
    requires i + |sep| <= |s| && s[i..i + |sep|] == sep
    ensures s == s[..i] + sep + s[i + |sep|..]
  {
  }

  /** The pieces written one after the other. */
  function Concat(parts: seq<string>): string
    decreases |parts|
  {
    if |parts| == 0 then "" else Concat(parts[..|parts| - 1]) + parts[|parts| - 1]
  }

  /** The digit `d` as a character. */
  function DigitChar(d: nat): (c: char)
    requires d < 10
    ensures '0' <= c <= '9' && c as int - '0' as int == d
  {
    ('0' as int + d) as char
  }

  /** `String(n)` for a natural number: its decimal digits, most significant first. */
  function NatToString(n: nat): (s: string)
    ensures |s| >= 1
    ensures forall i :: 0 <= i < |s| ==> '0' <= s[i] <= '9'
    decreases n
  {
    if n < 10 then [DigitChar(n)] else NatToString(n / 10) + [DigitChar(n % 10)]
  }

  /** Reads a string of decimal digits back as a number. */
  function ParseDigits(s: string): nat
    requires forall i :: 0 <= i < |s| ==> '0' <= s[i] <= '9'
    decreases |s|
  {
    if |s| == 0 then 0
    else ParseDigits(s[..|s| - 1]) * 10 + (s[|s| - 1] as int - '0' as int)
  }

  /** Decimal rendering is injective: parsing it back gives the number. */
  lemma {:induction false} NatToStringRoundTrip(n: nat)
    ensures ParseDigits(NatToString(n)) == n
    decreases n
  {
    if n >= 10 {
      NatToStringRoundTrip(n / 10);
      var s := NatToString(n);
      assert s[..|s| - 1] == NatToString(n / 10);
    }
  }

  /** A character outside the Basic Multilingual Plane, which UTF-16 stores as a surrogate pair. */
  predicate Astral(c: char) {
    c as int >= 0x1_0000
  }

  /**
   * A string's `length` in JavaScript: its count of UTF-16 code units, one
   * per character of the Basic Multilingual Plane and two per astral one.
   */
  function JsLength(s: string): (n: nat)
    ensures |s| <= n <= 2 * |s|
    ensures n == |s| <==> forall i :: 0 <= i < |s| ==> !Astral(s[i])
    decreases |s|
  {
    if |s| == 0 then 0
    else JsLength(s[..|s| - 1]) + (if Astral(s[|s| - 1]) then 2 else 1)
  }

  /** The length of a concatenation is the sum of the lengths. */
  lemma {:induction false} JsLengthAppend(a: string, b: string)
    ensures JsLength(a + b) == JsLength(a) + JsLength(b)
    decreases |b|
  {
    if |b| > 0 {
      var init := b[..|b| - 1];
      JsLengthAppend(a, init);
      assert (a + b)[..|a + b| - 1] == a + init;
      assert (a + b)[|a + b| - 1] == b[|b| - 1];
    } else {
      assert a + b == a;
    }
  }

  /** A string has JavaScript length one exactly when it is one character of the Basic Multilingual Plane. */
  lemma JsLengthOne(s: string)
    ensures JsLength(s) == 1 <==> |s| == 1 && !Astral(s[0])
  {
    if |s| == 1 {
      assert s[..0] == [];
    }
  }

  /** `'x'.length` is 1, and an emoji such as U+1F600 has `length` 2. */
  lemma JsLengthExamples()
    ensures JsLength("x") == 1
    ensures JsLength("\U{1F600}") == 2
    ensures JsLength("a\U{1F600}") == 3
  {
    JsLengthOne("x");
    assert "\U{1F600}"[..0] == [];
    JsLengthAppend("a", "\U{1F600}");
    JsLengthOne("a");
  }
}
