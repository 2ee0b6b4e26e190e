/** The Python string operations the script relies on: truthiness of an
    optional string, `str.split(sep)` with a one-character separator, and
    `str.replace(pattern, '')`. */
module Text {
  import opened Wrappers

  /** Python truthiness of a value that is either `None` or a string:
      false for `None` and for the empty string. */
  predicate Truthy(o: Option<string>) {
    o.Some? && o.value != ""
  }

  /** Number of occurrences of `c` in `s`. */
  function CountChar(s: string, c: char): nat {
    if s == [] then 0 else (if s[0] == c then 1 else 0) + CountChar(s[1..], c)
  }

  /** A string contains `c` exactly when it has a positive count of `c`. */
  lemma {:induction false} CountCharPositive(s: string, c: char)
    ensures CountChar(s, c) > 0 <==> c in s
  {
    if s != [] {
      CountCharPositive(s[1..], c);
      assert s == [s[0]] + s[1..];
    }
  }

  /** `s.split(sep)`: the pieces between separators, in order; always at
      least one piece, and one more piece than there are separators. */
  function Split(s: string, sep: char): (parts: seq<string>)
    ensures |parts| == CountChar(s, sep) + 1
    ensures forall i :: 0 <= i < |parts| ==> sep !in parts[i]
  {
    if s == [] then [""]
    else
      var rest := Split(s[1..], sep);
      if s[0] == sep then [""] + rest
      else [[s[0]] + rest[0]] + rest[1..]
  }

  /** `sep.join(parts)`. */
  function Join(parts: seq<string>, sep: char): string
    requires |parts| >= 1
  {
    if |parts| == 1 then parts[0] else parts[0] + [sep] + Join(parts[1..], sep)
  }

  /** Splitting loses nothing: joining the pieces back gives the input. */
  lemma {:induction false} JoinSplit(s: string, sep: char)
    ensures Join(Split(s, sep), sep) == s
  {
    if s != [] {
      var rest := Split(s[1..], sep);
      JoinSplit(s[1..], sep);
      if s[0] == sep {
        assert Split(s, sep)[1..] == rest;
      } else {
        var parts := Split(s, sep);
        assert parts[1..] == rest[1..];
        if |rest| == 1 {
          assert parts == [[s[0]] + rest[0]];
        } else {
          assert Join(rest, sep) == rest[0] + [sep] + Join(rest[1..], sep);
          assert Join(parts, sep) == [s[0]] + rest[0] + [sep] + Join(rest[1..], sep);
        }
        assert s == [s[0]] + s[1..];
      }
    }
  }

  /** Joining separator-free pieces and splitting again gives the pieces back. */
  lemma {:induction false} SplitJoin(parts: seq<string>, sep: char)
    requires |parts| >= 1
    requires forall i :: 0 <= i < |parts| ==> sep !in parts[i]
    ensures Split(Join(parts, sep), sep) == parts
  {
    if |parts| == 1 {
      SplitPiece(parts[0], sep);
    } else {
      SplitJoin(parts[1..], sep);
      SplitAfterPiece(parts[0], Join(parts[1..], sep), sep);
      assert [parts[0]] + parts[1..] == parts;
    }
  }

  /** A separator-free string splits into itself. */
  lemma {:induction false} SplitPiece(p: string, sep: char)
    requires sep !in p
    ensures Split(p, sep) == [p]
  {
    if p != [] {
      SplitPiece(p[1..], sep);
      assert [p[0]] + p[1..] == p;
    }
  }

  /** Splitting `p + sep + t`, with `p` separator-free, gives `p` followed by
      the pieces of `t`. */
  lemma {:induction false} SplitAfterPiece(p: string, t: string, sep: char)
    requires sep !in p
    ensures Split(p + [sep] + t, sep) == [p] + Split(t, sep)
  {
    if p == [] {
      assert p + [sep] + t == [sep] + t;
      assert ([sep] + t)[1..] == t;
    } else {
      SplitAfterPiece(p[1..], t, sep);
      var s := p + [sep] + t;
      assert s[0] == p[0] && s[1..] == p[1..] + [sep] + t;
      assert [p[0]] + p[1..] == p;
    }
  }

  /** A composite key `a.b` with separator-free parts splits into exactly
      `[a, b]`, and a key that splits into two pieces is of that form. */
  lemma TwoPartKey(key: string, a: string, b: string, sep: char)
    requires sep !in a && sep !in b
    ensures Split(key, sep) == [a, b] <==> key == a + [sep] + b
  {
    SplitJoin([a, b], sep);
    assert Join([a, b], sep) == a + [sep] + b;
    if Split(key, sep) == [a, b] {
      JoinSplit(key, sep);
    }
  }

  /** Python's `pattern in s` for a non-empty pattern. */
  predicate Occurs(pattern: string, s: string)
    decreases |s|
  {
    pattern <= s || (s != [] && Occurs(pattern, s[1..]))
  }

  /** `s.replace(pattern, '')`: every occurrence of `pattern` found in a
      left-to-right scan is removed, not only a leading one. */
  function RemoveAll(s: string, pattern: string): (r: string)
    requires pattern != []
    ensures |r| <= |s|
    decreases |s|
  {
    if pattern <= s then RemoveAll(s[|pattern|..], pattern)
    else if s == [] then []
    else [s[0]] + RemoveAll(s[1..], pattern)
  }

  /** Each occurrence removed shortens the string by the pattern's length. */
  lemma {:induction false} RemoveAllShrinks(s: string, pattern: string)
    requires pattern != []
    requires Occurs(pattern, s)
    ensures |RemoveAll(s, pattern)| <= |s| - |pattern|
    decreases |s|
  {
    if !(pattern <= s) {
      RemoveAllShrinks(s[1..], pattern);
    }
  }

  /** `replace` leaves a string unchanged exactly when the pattern does not
      occur in it. */
  lemma {:induction false} RemoveAllFixedIff(s: string, pattern: string)
    requires pattern != []
    ensures RemoveAll(s, pattern) == s <==> !Occurs(pattern, s)
    decreases |s|
  {
    if Occurs(pattern, s) {
      RemoveAllShrinks(s, pattern);
    } else if s != [] {
      RemoveAllFixedIff(s[1..], pattern);
      assert [s[0]] + s[1..] == s;
    }
  }

  /** An occurrence at the front is removed. */
  lemma RemoveAllAtPattern(pattern: string, t: string)
    requires pattern != []
    ensures RemoveAll(pattern + t, pattern) == RemoveAll(t, pattern)
  {
    assert pattern <= pattern + t;
    assert (pattern + t)[|pattern|..] == t;
  }

  /** A character not starting an occurrence is kept. */
  lemma RemoveAllKeeps(c: char, t: string, pattern: string)
    requires pattern != [] && !(pattern <= [c] + t)
    ensures RemoveAll([c] + t, pattern) == [c] + RemoveAll(t, pattern)
  {
    assert ([c] + t)[1..] == t;
  }

  /** A string shorter than the pattern is left as it is. */
  lemma {:induction false} RemoveAllShort(s: string, pattern: string)
    requires pattern != [] && |s| < |pattern|
    ensures RemoveAll(s, pattern) == s
    decreases |s|
  {
    if s != [] {
      RemoveAllShort(s[1..], pattern);
      assert [s[0]] + s[1..] == s;
    }
  }
}
