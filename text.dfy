/** String operations of java.lang.String that the quiz relies on, restricted to ASCII case
    mapping: toLowerCase, toUpperCase, equalsIgnoreCase, trim and split(" "). */
module Text {

  /** The character Java's trim removes: any code point up to and including the space. */
  predicate IsPadding(c: char) {
    c <= ' '
  }

  function ToLower(c: char): char {
    if 'A' <= c <= 'Z' then (c as int + 32) as char else c
  }

  function ToUpper(c: char): char {
    if 'a' <= c <= 'z' then (c as int - 32) as char else c
  }

  /** toLowerCase, character by character. */
  function Lower(s: string): (r: string)
    ensures |r| == |s|
  {
    if s == [] then [] else [ToLower(s[0])] + Lower(s[1..])
  }

  /** toUpperCase, character by character. */
  function Upper(s: string): (r: string)
    ensures |r| == |s|
  {
    if s == [] then [] else [ToUpper(s[0])] + Upper(s[1..])
  }

  /** toLowerCase maps every character on its own. */
  lemma {:induction false} LowerChars(s: string)
    ensures forall i :: 0 <= i < |s| ==> Lower(s)[i] == ToLower(s[i])
  {
    if s != [] {
      LowerChars(s[1..]);
    }
  }

  /** toUpperCase maps every character on its own. */
  lemma {:induction false} UpperChars(s: string)
    ensures forall i :: 0 <= i < |s| ==> Upper(s)[i] == ToUpper(s[i])
  {
    if s != [] {
      UpperChars(s[1..]);
    }
  }

  /** The per-character test of String.regionMatches with ignoreCase set. */
  predicate CharsMatchIgnoringCase(a: char, b: char) {
    a == b || ToUpper(a) == ToUpper(b) || ToLower(ToUpper(a)) == ToLower(ToUpper(b))
  }

  /** equalsIgnoreCase: same length and every position matches ignoring case. */
  predicate EqualsIgnoreCase(a: string, b: string) {
    |a| == |b| && forall i :: 0 <= i < |a| ==> CharsMatchIgnoringCase(a[i], b[i])
  }

  lemma LowerIdempotent(s: string)
    ensures Lower(Lower(s)) == Lower(s)
  {
  }

  lemma UpperIdempotent(s: string)
    ensures Upper(Upper(s)) == Upper(s)
  {
  }

  /** Two characters match ignoring case exactly when their lower-case forms agree ... */
  lemma CharsMatchIffLower(x: char, y: char)
    ensures CharsMatchIgnoringCase(x, y) <==> ToLower(x) == ToLower(y)
  {
  }

  /** ... and exactly when their upper-case forms agree. */
  lemma CharsMatchIffUpper(x: char, y: char)
    ensures CharsMatchIgnoringCase(x, y) <==> ToUpper(x) == ToUpper(y)
  {
  }

  /** Ignoring case is the same as comparing lower-cased forms ... */
  lemma EqualsIgnoreCaseIffLowerEqual(a: string, b: string)
    ensures EqualsIgnoreCase(a, b) <==> Lower(a) == Lower(b)
  {
    if |a| == |b| {
      LowerChars(a);
      LowerChars(b);
      forall i | 0 <= i < |a|
        ensures CharsMatchIgnoringCase(a[i], b[i]) <==> Lower(a)[i] == Lower(b)[i]
      {
        CharsMatchIffLower(a[i], b[i]);
      }
    }
  }

  /** ... and the same as comparing upper-cased forms. */
  lemma EqualsIgnoreCaseIffUpperEqual(a: string, b: string)
    ensures EqualsIgnoreCase(a, b) <==> Upper(a) == Upper(b)
  {
    if |a| == |b| {
      UpperChars(a);
      UpperChars(b);
      forall i | 0 <= i < |a|
        ensures CharsMatchIgnoringCase(a[i], b[i]) <==> Upper(a)[i] == Upper(b)[i]
      {
        CharsMatchIffUpper(a[i], b[i]);
      }
    }
  }

  /** trim's first loop: the index st moves forward over padding, stopping at len. */
  function SkipFront(s: string, st: nat, len: nat): (r: nat)
    requires st <= len <= |s|
    ensures st <= r <= len
    decreases len - st
  {
    if st < len && IsPadding(s[st]) then SkipFront(s, st + 1, len) else st
  }

  /** trim's second loop: the end len moves back over padding, stopping at st. */
  function SkipBack(s: string, st: nat, len: nat): (r: nat)
    requires st <= len <= |s|
    ensures st <= r <= len
  {
    if st < len && IsPadding(s[len - 1]) then SkipBack(s, st, len - 1) else len
  }

  /** The index of the first character trim keeps. */
  function Start(s: string): nat {
    SkipFront(s, 0, |s|)
  }

  /** The index just past the last character trim keeps. */
  function End(s: string): (r: nat)
    ensures Start(s) <= r <= |s|
  {
    SkipBack(s, Start(s), |s|)
  }

  /** trim: the characters between the two loops' stopping points. */
  function Trim(s: string): string {
    s[Start(s)..End(s)]
  }

  lemma {:induction false} SkipFrontStops(s: string, st: nat, len: nat)
    requires st <= len <= |s|
    ensures forall k :: st <= k < SkipFront(s, st, len) ==> IsPadding(s[k])
    ensures SkipFront(s, st, len) < len ==> !IsPadding(s[SkipFront(s, st, len)])
    decreases len - st
  {
    if st < len && IsPadding(s[st]) {
      SkipFrontStops(s, st + 1, len);
    }
  }

  lemma {:induction false} SkipBackStops(s: string, st: nat, len: nat)
    requires st <= len <= |s|
    ensures forall k :: SkipBack(s, st, len) <= k < len ==> IsPadding(s[k])
    ensures st < SkipBack(s, st, len) ==> !IsPadding(s[SkipBack(s, st, len) - 1])
  {
    if st < len && IsPadding(s[len - 1]) {
      SkipBackStops(s, st, len - 1);
    }
  }

  /** The front loop stops at the first kept character at or after st. */
  lemma SkipFrontIs(s: string, st: nat, len: nat, n: nat)
    requires st <= n <= len <= |s|
    requires forall k :: st <= k < n ==> IsPadding(s[k])
    requires n < len ==> !IsPadding(s[n])
    ensures SkipFront(s, st, len) == n
  {
    SkipFrontStops(s, st, len);
  }

  /** The back loop stops just past the last kept character before len. */
  lemma SkipBackIs(s: string, st: nat, len: nat, n: nat)
    requires st <= n <= len <= |s|
    requires forall k :: n <= k < len ==> IsPadding(s[k])
    requires st < n ==> !IsPadding(s[n - 1])
    ensures SkipBack(s, st, len) == n
  {
    SkipBackStops(s, st, len);
  }

  /** What trim keeps: the slice of s from its first to its last character above the
      space, everything around it being padding. It is empty exactly when s is all
      padding, and otherwise neither starts nor ends with padding. */
  lemma TrimShape(s: string)
    ensures Trim(s) == s[Start(s)..End(s)]
    ensures forall k :: 0 <= k < Start(s) ==> IsPadding(s[k])
    ensures forall k :: End(s) <= k < |s| ==> IsPadding(s[k])
    ensures Trim(s) == [] <==> forall k :: 0 <= k < |s| ==> IsPadding(s[k])
    ensures Trim(s) != [] ==> !IsPadding(Trim(s)[0]) && !IsPadding(Trim(s)[|Trim(s)| - 1])
  {
    var st := Start(s);
    SkipFrontStops(s, 0, |s|);
    SkipBackStops(s, st, |s|);
    var len := End(s);
    if st < |s| {
      assert !IsPadding(s[st]);
      var r := Trim(s);
      assert r[0] == s[st] && r[|r| - 1] == s[len - 1];
    }
  }

  /** A string with no padding at either end is left as it is by trim. */
  lemma TrimUnpadded(s: string)
    requires s == [] || (!IsPadding(s[0]) && !IsPadding(s[|s| - 1]))
    ensures Trim(s) == s
  {
    if s != [] {
      SkipFrontIs(s, 0, |s|, 0);
      SkipBackIs(s, 0, |s|, |s|);
    }
  }

  /** Joins fields with single spaces; the inverse of Fields. */
  function Join(fields: seq<string>): string
    requires |fields| >= 1
  {
    if |fields| == 1 then fields[0] else fields[0] + " " + Join(fields[1..])
  }

  /** Every piece of s between single spaces, empty pieces included. */
  function Fields(s: string): (r: seq<string>)
    ensures |r| >= 1
    ensures forall k :: 0 <= k < |r| ==> ' ' !in r[k]
    ensures Join(r) == s
  {
    if s == [] then [""]
    else
      var rest := Fields(s[1..]);
      if s[0] == ' ' then
        assert [""] + rest == [""] + rest && ([""] + rest)[1..] == rest;
        [""] + rest
      else
        var r := [[s[0]] + rest[0]] + rest[1..];
        assert r[1..] == rest[1..];
        assert Join(r) == s by {
          if |rest| == 1 {
          } else {
            assert Join(rest) == rest[0] + " " + Join(rest[1..]);
            assert s == [s[0]] + s[1..];
          }
        }
        r
  }

  /** Drops empty strings at the end, as split does with a zero limit. */
  function DropTrailingEmpty(fields: seq<string>): (r: seq<string>)
    ensures |r| <= |fields| && r == fields[..|r|]
    ensures r != [] ==> r[|r| - 1] != ""
    ensures forall k :: |r| <= k < |fields| ==> fields[k] == ""
  {
    if fields != [] && fields[|fields| - 1] == "" then DropTrailingEmpty(fields[..|fields| - 1])
    else fields
  }

  /** split(" "): a string without a space is returned whole (even the empty string);
      otherwise the pieces between spaces, leading empty pieces kept, trailing ones dropped. */
  function Split(s: string): (r: seq<string>)
    ensures ' ' !in s ==> r == [s]
    ensures ' ' in s ==> (|r| <= |Fields(s)| && r == Fields(s)[..|r|]
      && (r != [] ==> r[|r| - 1] != "")
      && (forall k :: |r| <= k < |Fields(s)| ==> Fields(s)[k] == ""))
  {
    if ' ' !in s then [s] else DropTrailingEmpty(Fields(s))
  }

  lemma {:induction false} FieldsOfSpaceFree(s: string)
    requires ' ' !in s
    ensures Fields(s) == [s]
  {
    if s != [] {
      FieldsOfSpaceFree(s[1..]);
    }
  }

  lemma {:induction false} FieldsAfterWord(a: string, b: string)
    requires ' ' !in a
    ensures Fields(a + " " + b) == [a] + Fields(b)
  {
    if a == [] {
      assert a + " " + b == [' '] + b;
      assert (a + " " + b)[1..] == b;
    } else {
      assert (a + " " + b)[1..] == a[1..] + " " + b;
      FieldsAfterWord(a[1..], b);
      assert [a[0]] + a[1..] == a;
    }
  }

  /** A line made of two non-empty space-free words and one space between them
      splits into exactly those two words. */
  lemma SplitTwoWords(a: string, b: string)
    requires a != [] && b != [] && ' ' !in a && ' ' !in b
    ensures Split(a + " " + b) == [a, b]
  {
    var s := a + " " + b;
    assert s[|a|] == ' ';
    FieldsAfterWord(a, b);
    FieldsOfSpaceFree(b);
    assert Fields(s) == [a, b];
  }

  /** trim removes exactly the padding put around a string that has none at its ends. */
  lemma TrimStripsPadding(p: string, s: string, q: string)
    requires forall k :: 0 <= k < |p| ==> IsPadding(p[k])
    requires forall k :: 0 <= k < |q| ==> IsPadding(q[k])
    requires s == [] || (!IsPadding(s[0]) && !IsPadding(s[|s| - 1]))
    ensures Trim(p + s + q) == s
  {
    var t := p + s + q;
    assert forall k :: 0 <= k < |p| ==> t[k] == p[k];
    assert forall k :: |p| + |s| <= k < |t| ==> t[k] == q[k - |p| - |s|];
    if s == [] {
      SkipFrontIs(t, 0, |t|, |t|);
      SkipBackIs(t, |t|, |t|, |t|);
    } else {
      assert t[|p|] == s[0] && t[|p| + |s| - 1] == s[|s| - 1];
      SkipFrontIs(t, 0, |t|, |p|);
      SkipBackIs(t, |p|, |t|, |p| + |s|);
      assert t[|p|..|p| + |s|] == s;
    }
  }
}
