/**
 * Parsing of a property-protection role list (`_load_rules` in
 * glance/common/property_utils.py): the option value is split on ',' and
 * every entry is stripped of surrounding whitespace.
 */
module RoleLists {

  /** The characters Python's `str.strip()` removes: ASCII whitespace. */
  predicate IsSpace(ch: char) {
    ch == ' ' || ch == '\t' || ch == '\n' || ch == '\r' || ch as int == 11 || ch as int == 12
  }

  /** No whitespace at either end. */
  predicate Clean(s: string) {
    |s| > 0 ==> !IsSpace(s[0]) && !IsSpace(s[|s| - 1])
  }

  /** The index of the first non-whitespace character of `s` at or after `i` (or `|s|`). */
  function SkipSpace(s: string, i: nat): (k: nat)
    requires i <= |s|
    ensures i <= k <= |s|
    ensures forall j :: i <= j < k ==> IsSpace(s[j])
    ensures k < |s| ==> !IsSpace(s[k])
    decreases |s| - i
  {
    if i < |s| && IsSpace(s[i]) then SkipSpace(s, i + 1) else i
  }

  /** The end of `s[lo..hi]` once its trailing whitespace is dropped. */
  function SkipSpaceBack(s: string, lo: nat, hi: nat): (k: nat)
    requires lo <= hi <= |s|
    ensures lo <= k <= hi
    ensures forall j :: k <= j < hi ==> IsSpace(s[j])
    ensures k > lo ==> !IsSpace(s[k - 1])
    decreases hi
  {
    if hi > lo && IsSpace(s[hi - 1]) then SkipSpaceBack(s, lo, hi - 1) else hi
  }

  /**
   * `str.strip()`: what remains of `s` once the whitespace at both ends is
   * removed; it is the piece of `s` between the leading and the trailing
   * whitespace.
   */
  function Strip(s: string): (r: string)
    ensures Clean(r)
    ensures var lo := SkipSpace(s, 0);
            && lo + |r| <= |s|
            && r == s[lo..lo + |r|]
            && (forall i :: 0 <= i < lo ==> IsSpace(s[i]))
            && (forall i :: lo + |r| <= i < |s| ==> IsSpace(s[i]))
  {
    var lo := SkipSpace(s, 0);
    var hi := SkipSpaceBack(s, lo, |s|);
    s[lo..hi]
  }

  /** A string with no whitespace at its ends is left as it is. */
  lemma StripClean(s: string)
    requires Clean(s)
    ensures Strip(s) == s
  {
    if |s| > 0 {
      assert SkipSpace(s, 0) == 0;
      assert SkipSpaceBack(s, 0, |s|) == |s|;
    }
  }

  /** Stripping twice strips no more than stripping once. */
  lemma StripIdempotent(s: string)
    ensures Strip(Strip(s)) == Strip(s)
  {
    StripClean(Strip(s));
  }

  /** Parts joined with ',' between them: the inverse of `Split`. */
  function Join(parts: seq<string>): string
    requires |parts| >= 1
  {
    if |parts| == 1 then parts[0] else parts[0] + "," + Join(parts[1..])
  }

  /** No ',' anywhere in `s`. */
  predicate CommaFree(s: string) {
    forall i :: 0 <= i < |s| ==> s[i] != ','
  }

  /**
   * `str.split(',')`: the pieces between the commas, in order, with empty
   * pieces kept; joining them back gives `s`.
   */
  function Split(s: string): (parts: seq<string>)
    ensures |parts| >= 1
    ensures forall i :: 0 <= i < |parts| ==> CommaFree(parts[i])
    ensures Join(parts) == s
    decreases |s|
  {
    if |s| == 0 then [""]
    else
      var rest := Split(s[1..]);
      if s[0] == ',' then
        assert ([""] + rest)[1..] == rest;
        [""] + rest
      else
        var parts := [[s[0]] + rest[0]] + rest[1..];
        assert parts[1..] == rest[1..];
        parts
  }

  /** A comma-free prefix glues onto the first piece of what follows it. */
  lemma {:induction false} SplitCommaFreePrefix(a: string, t: string)
    requires CommaFree(a)
    ensures Split(a + t) == [a + Split(t)[0]] + Split(t)[1..]
    decreases |a|
  {
    if |a| > 0 {
      assert (a + t)[1..] == a[1..] + t;
      SplitCommaFreePrefix(a[1..], t);
      var rest := Split(a[1..] + t);
      assert rest[0] == a[1..] + Split(t)[0];
      assert rest[1..] == Split(t)[1..];
      assert [a[0]] + (a[1..] + Split(t)[0]) == a + Split(t)[0];
    } else {
      assert a + t == t;
      assert a + Split(t)[0] == Split(t)[0];
      assert [Split(t)[0]] + Split(t)[1..] == Split(t);
    }
  }

  /** A leading ',' closes an empty first piece. */
  lemma SplitAfterComma(t: string)
    ensures Split("," + t) == [""] + Split(t)
  {
    assert ("," + t)[1..] == t;
  }

  /** Splitting a join of comma-free parts gives the parts back. */
  lemma {:induction false} SplitJoin(parts: seq<string>)
    requires |parts| >= 1
    requires forall i :: 0 <= i < |parts| ==> CommaFree(parts[i])
    ensures Split(Join(parts)) == parts
    decreases |parts|
  {
    if |parts| == 1 {
      SplitCommaFreePrefix(parts[0], "");
      assert parts[0] + "" == parts[0];
      assert Split("") == [""];
    } else {
      var head, rest := parts[0], parts[1..];
      var tail := Join(rest);
      assert Join(parts) == head + ("," + tail);
      SplitJoin(rest);
      SplitAfterComma(tail);
      SplitCommaFreePrefix(head, "," + tail);
      assert head + "" == head;
      assert [head] + rest == parts;
    }
  }

  /**
   * The role list of one operation: the empty option value gives no roles
   * at all; otherwise every comma-separated entry, stripped.
   */
  function ParseRoles(value: string): (roles: seq<string>)
    ensures value == "" ==> roles == []
    ensures value != "" ==> |roles| == |Split(value)|
    ensures value != "" ==> forall i :: 0 <= i < |roles| ==> roles[i] == Strip(Split(value)[i])
    ensures forall i :: 0 <= i < |roles| ==> CommaFree(roles[i]) && Clean(roles[i])
  {
    if value == "" then []
    else
      var parts := Split(value);
      seq(|parts|, i requires 0 <= i < |parts| => Strip(parts[i]))
  }

  /**
   * Writing clean, comma-free role names with ',' between them and parsing
   * the result gives the same names back (unless the text is empty).
   */
  lemma ParseJoinedRoles(names: seq<string>)
    requires |names| >= 1 && Join(names) != ""
    requires forall i :: 0 <= i < |names| ==> CommaFree(names[i]) && Clean(names[i])
    ensures ParseRoles(Join(names)) == names
  {
    SplitJoin(names);
    forall i | 0 <= i < |names| ensures Strip(names[i]) == names[i] {
      StripClean(names[i]);
    }
  }

  /** Two comma-free pieces with one ',' between them split back apart. */
  lemma SplitPair(a: string, b: string)
    requires CommaFree(a) && CommaFree(b)
    ensures Split(a + "," + b) == [a, b]
  {
    assert [a, b][1..] == [b];
    SplitJoin([a, b]);
  }

  /** Whitespace only. */
  predicate Blank(w: string) {
    forall i :: 0 <= i < |w| ==> IsSpace(w[i])
  }

  /** Stripping a padded word gives the word. */
  lemma StripPadded(w1: string, a: string, w2: string)
    requires Blank(w1) && Blank(w2) && |a| > 0 && Clean(a)
    ensures Strip(w1 + a + w2) == a
  {
    var s := w1 + a + w2;
    forall j | 0 <= j < |w1| ensures IsSpace(s[j]) {
      assert s[j] == w1[j];
    }
    forall j | |w1| + |a| <= j < |s| ensures IsSpace(s[j]) {
      assert s[j] == w2[j - |w1| - |a|];
    }
    var lo := SkipSpace(s, 0);
    assert s[|w1|] == a[0];
    assert lo == |w1|;
    var hi := SkipSpaceBack(s, lo, |s|);
    assert s[|w1| + |a| - 1] == a[|a| - 1];
    assert hi == |w1| + |a|;
    assert s[lo..hi] == a;
  }

  /** Whitespace holds no ','. */
  lemma BlankCommaFree(w: string)
    requires Blank(w)
    ensures CommaFree(w)
  {
    forall i | 0 <= i < |w| ensures w[i] != ',' {
      assert IsSpace(w[i]);
    }
  }

  /** Two comma-free strings put together are comma-free. */
  lemma CommaFreeConcat(x: string, y: string)
    requires CommaFree(x) && CommaFree(y)
    ensures CommaFree(x + y)
  {
    forall i | 0 <= i < |x + y| ensures (x + y)[i] != ',' {
      if i >= |x| { assert (x + y)[i] == y[i - |x|]; }
    }
  }

  /**
   * Whitespace around the entries does not matter: "fake-role,  member"
   * and "fake-role , member" both give the two role names.
   */
  lemma PaddedRolePair(w1: string, a: string, w2: string, w3: string, b: string, w4: string)
    requires Blank(w1) && Blank(w2) && Blank(w3) && Blank(w4)
    requires |a| > 0 && Clean(a) && CommaFree(a)
    requires |b| > 0 && Clean(b) && CommaFree(b)
    ensures ParseRoles(w1 + a + w2 + "," + w3 + b + w4) == [a, b]
  {
    var left, right := w1 + a + w2, w3 + b + w4;
    BlankCommaFree(w1); BlankCommaFree(w2); BlankCommaFree(w3); BlankCommaFree(w4);
    CommaFreeConcat(w1, a); CommaFreeConcat(w1 + a, w2);
    CommaFreeConcat(w3, b); CommaFreeConcat(w3 + b, w4);
    assert w1 + a + w2 + "," + w3 + b + w4 == left + "," + right;
    ParseRolesPair(left, right);
    StripPadded(w1, a, w2);
    StripPadded(w3, b, w4);
  }

  /** Two comma-free pieces with one ',' between them parse as the two pieces, stripped. */
  lemma ParseRolesPair(x: string, y: string)
    requires CommaFree(x) && CommaFree(y)
    ensures ParseRoles(x + "," + y) == [Strip(x), Strip(y)]
  {
    SplitPair(x, y);
    assert x + "," + y != "" by { assert |x + "," + y| == |x| + 1 + |y|; }
  }
}
