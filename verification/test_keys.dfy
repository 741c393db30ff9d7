/**
 * The `testName###key` helpers: a test name and a key are packed into one
 * string around the delimiter `###` and unpacked again; a string whose part
 * after the first delimiter is missing or empty is rejected (the source logs a
 * diagnostic and returns `undefined`).
 */
module TestKeys {
  import opened Wrappers
  import opened Strings

  const Delimiter: string := "###"

  datatype NameKey = NameKey(testName: string, key: string)

  /** `testName + '###' + key`. */
  function JoinTestNamePlusKey(testName: string, key: string): (r: string)
    ensures StartsWith(r, testName + Delimiter) && EndsWith(r, key)
    ensures |r| == |testName| + |Delimiter| + |key|
  {
    testName + Delimiter + key
  }

  /**
   * The first two `###`-separated pieces, when the second one is non-empty;
   * any further pieces are dropped.
   */
  function SplitTestNamePlusKey(s: string): (r: Option<NameKey>)
    ensures r.Some? ==> r.value.key != ""
    ensures r.Some? ==> !Contains(r.value.testName, Delimiter) && !Contains(r.value.key, Delimiter)
    ensures r.Some? ==> StartsWith(s, r.value.testName + Delimiter + r.value.key)
  {
    var parts := Split(s, Delimiter);
    SplitPiecesFree(s, Delimiter);
    if |parts| >= 2 && parts[1] != "" then
      SplitFirstTwo(s, Delimiter);
      Some(NameKey(parts[0], parts[1]))
    else
      None
  }

  /**
   * Split succeeds exactly when the text holds a delimiter and what follows the
   * first delimiter neither is empty nor starts with another delimiter.
   */
  lemma SplitAccepts(s: string)
    ensures SplitTestNamePlusKey(s).Some? <==>
      IndexOf(s, Delimiter).Some?
      && |s| > IndexOf(s, Delimiter).value + 3
      && !StartsWith(s[IndexOf(s, Delimiter).value + 3..], Delimiter)
  {
    var parts := Split(s, Delimiter);
    assert SplitTestNamePlusKey(s).Some? <==> |parts| >= 2 && parts[1] != "";
    var r := IndexOf(s, Delimiter);
    if r.Some? {
      var rest := s[r.value + 3..];
      assert parts == [s[..r.value]] + Split(rest, Delimiter);
      SplitHeadEmpty(rest);
    }
  }

  /** The first piece of a split is empty exactly when the text is empty or starts with the delimiter. */
  lemma SplitHeadEmpty(t: string)
    ensures Split(t, Delimiter)[0] == "" <==> |t| == 0 || StartsWith(t, Delimiter)
  {
    var j := IndexOf(t, Delimiter);
    IndexOfIsFirst(t, Delimiter);
    assert t[0..] == t;
    if j.Some? {
      assert Split(t, Delimiter)[0] == t[..j.value];
    }
  }

  /** A text without `#` holds no delimiter. */
  lemma NoHashNoDelimiter(t: string)
    requires '#' !in t
    ensures !Contains(t, Delimiter)
  {
    ContainsAt(t, Delimiter);
    forall j | 0 <= j <= |t|
      ensures !StartsWith(t[j..], Delimiter)
    {
      if j + 3 <= |t| {
        assert t[j..][..3][0] == t[j];
      }
    }
  }

  /**
   * Behind a name that holds no delimiter and does not end in `#`, the first
   * delimiter of `name + '###' + rest` is the one just after the name.
   */
  lemma DelimiterFirstAfter(name: string, rest: string)
    requires !Contains(name, Delimiter) && !EndsWith(name, "#")
    ensures StartsWith((name + Delimiter + rest)[|name|..], Delimiter)
    ensures forall j :: 0 <= j < |name| ==> !StartsWith((name + Delimiter + rest)[j..], Delimiter)
  {
    var s := name + Delimiter + rest;
    var n := |name|;
    assert s[n..][..3] == Delimiter;
    ContainsAt(name, Delimiter);
    forall j | 0 <= j < n
      ensures !StartsWith(s[j..], Delimiter)
    {
      if j + 3 <= n {
        InsideName(name, rest, j);
      } else {
        AcrossNameEnd(name, rest, j);
      }
    }
  }

  /** A window that lies inside the name reads the name. */
  lemma InsideName(name: string, rest: string, j: nat)
    requires j + 3 <= |name|
    ensures (name + Delimiter + rest)[j..][..3] == name[j..][..3]
  {
  }

  /** A window that covers the name's last character is not a delimiter when that character is not `#`. */
  lemma AcrossNameEnd(name: string, rest: string, j: nat)
    requires j < |name| < j + 3
    requires !EndsWith(name, "#")
    ensures !StartsWith((name + Delimiter + rest)[j..], Delimiter)
  {
    var n := |name|;
    assert name[n - 1..] == [name[n - 1]];
    assert (name + Delimiter + rest)[j..][n - 1 - j] == name[n - 1];
  }

  /** The split of `name + '###' + rest` when the name is clean: the name, then the pieces of `rest`. */
  lemma SplitAfterName(name: string, rest: string)
    requires !Contains(name, Delimiter) && !EndsWith(name, "#")
    ensures Split(name + Delimiter + rest, Delimiter) == [name] + Split(rest, Delimiter)
  {
    var s := name + Delimiter + rest;
    DelimiterFirstAfter(name, rest);
    IndexOfAt(s, Delimiter, |name|);
    assert s[..|name|] == name;
    assert s[|name| + 3..] == rest;
  }

  /** A text holding no delimiter splits into itself. */
  lemma SplitClean(t: string)
    requires !Contains(t, Delimiter)
    ensures Split(t, Delimiter) == [t]
  {
    IndexOfFound(t, Delimiter);
  }

  /**
   * Round trip: a name with no `###` that does not end in `#`, and a non-empty
   * key with no `###`, come back out of the split unchanged.
   */
  lemma SplitJoinRoundTrip(testName: string, key: string)
    requires key != ""
    requires !Contains(testName, Delimiter) && !Contains(key, Delimiter)
    requires !EndsWith(testName, "#")
    ensures SplitTestNamePlusKey(JoinTestNamePlusKey(testName, key)) == Some(NameKey(testName, key))
  {
    SplitAfterName(testName, key);
    SplitClean(key);
  }

  /** Without the guard on a trailing `#` the round trip fails: "A#" and "B" come back as "A" and "#B". */
  lemma TrailingHashBreaksRoundTrip()
    ensures SplitTestNamePlusKey(JoinTestNamePlusKey("A#", "B")) == Some(NameKey("A", "#B"))
  {
    assert JoinTestNamePlusKey("A#", "B") == "A" + Delimiter + "#B";
    NoHashNoDelimiter("A");
    assert "A"[0..] == "A";
    SplitAfterName("A", "#B");
    ContainsAt("#B", Delimiter);
    assert "#B"[1..] == "B";
    assert "#B"[2..] == "";
    SplitClean("#B");
  }

  /** Pieces after the second delimiter are dropped silently. */
  lemma ExtraPiecesDropped(testName: string, key: string, extra: string)
    requires key != ""
    requires !Contains(testName, Delimiter) && !Contains(key, Delimiter)
    requires !EndsWith(testName, "#") && !EndsWith(key, "#")
    ensures SplitTestNamePlusKey(JoinTestNamePlusKey(testName, key) + Delimiter + extra) == Some(NameKey(testName, key))
  {
    var a := testName + Delimiter;
    AppendAssoc(a + key, Delimiter, extra);
    AppendAssoc(a, key, Delimiter + extra);
    AppendAssoc(key, Delimiter, extra);
    SplitAfterName(testName, key + Delimiter + extra);
    SplitAfterName(key, extra);
    assert Split(a + key + Delimiter + extra, Delimiter) == [testName] + ([key] + Split(extra, Delimiter));
  }

  /** Worked example: "AAA###BBB" splits into "AAA" and "BBB", and joining "AAA" with "VVV" gives "AAA###VVV". */
  lemma ExampleWellFormed(s: string, name: string, key: string)
    requires s == "AAA###BBB" && name == "AAA" && key == "VVV"
    ensures SplitTestNamePlusKey(s) == Some(NameKey("AAA", "BBB"))
    ensures JoinTestNamePlusKey(name, key) == "AAA###VVV"
  {
    assert s == JoinTestNamePlusKey(name, "BBB");
    CleanName(name);
    NoHashNoDelimiter("BBB");
    SplitJoinRoundTrip(name, "BBB");
  }

  /** `AAA` holds no delimiter and does not end in `#`. */
  lemma CleanName(name: string)
    requires name == "AAA"
    ensures !Contains(name, Delimiter) && !EndsWith(name, "#")
  {
    NoHashNoDelimiter(name);
    assert name[2..] == "A";
  }

  /** Worked examples: "AAA###" (empty key) and "AAA" (no delimiter) are rejected. */
  lemma ExampleMissingKey(s: string, name: string)
    requires s == "AAA###" && name == "AAA"
    ensures SplitTestNamePlusKey(s).None?
    ensures SplitTestNamePlusKey(name).None?
  {
    CleanName(name);
    SplitClean(name);
    assert s == name + Delimiter + "";
    SplitAfterName(name, "");
    SplitClean("");
  }

  /** Worked example: "AAA##BBB" has a two-character `##` only and is rejected. */
  lemma ExampleShortDelimiter(t: string)
    requires t == "AAA##BBB"
    ensures SplitTestNamePlusKey(t).None?
  {
    ContainsAt(t, Delimiter);
    forall j | 0 <= j <= |t|
      ensures !StartsWith(t[j..], Delimiter)
    {
      if j + 3 <= |t| {
        assert t[j..][..3] == [t[j], t[j + 1], t[j + 2]];
      }
    }
    SplitClean(t);
  }
}
