/**
 * The two JavaScript string operations the request handler applies to the URL path:
 * `substring(1)` and `split(sep)` with a one-character separator, together with
 * `join(sep)`, the inverse that specifies what `split` returns.
 */
module JsStrings {

  /** `s.substring(1)`: everything after the first character; "" for "". */
  function Substring1(s: string): (t: string)
    ensures |s| == 0 ==> t == []
    ensures |s| > 0 ==> [s[0]] + t == s
  {
    if |s| == 0 then [] else s[1..]
  }

  /** `parts.join(sep)`: the parts with one separator between each two of them. */
  function Join(parts: seq<string>, sep: char): string
    requires |parts| >= 1
    decreases |parts|
  {
    if |parts| == 1 then parts[0] else parts[0] + [sep] + Join(parts[1..], sep)
  }

  /**
   * `s.split(sep)`: the pieces of `s` between separators. There is always at
   * least one piece, so `"".split("/")` is `[""]` and `"a/".split("/")` is `["a", ""]`.
   */
  function Split(s: string, sep: char): (parts: seq<string>)
    ensures |parts| >= 1
    decreases |s|
  {
    if |s| == 0 then [""]
    else
      var rest := Split(s[1..], sep);
      if s[0] == sep then [""] + rest
      else [[s[0]] + rest[0]] + rest[1..]
  }

  /** The pieces hold no separator, and joining them again gives back `s`. */
  lemma {:induction false} SplitPartitions(s: string, sep: char)
    ensures forall i :: 0 <= i < |Split(s, sep)| ==> sep !in Split(s, sep)[i]
    ensures Join(Split(s, sep), sep) == s
    decreases |s|
  {
    if |s| > 0 {
      var rest := Split(s[1..], sep);
      SplitPartitions(s[1..], sep);
      var parts := Split(s, sep);
      if s[0] == sep {
        assert parts[1..] == rest;
      } else {
        assert parts[1..] == rest[1..];
        assert forall i :: 1 <= i < |parts| ==> parts[i] == rest[i];
        if |rest| > 1 {
          assert Join(rest, sep) == rest[0] + [sep] + Join(rest[1..], sep);
        }
      }
    }
  }

  /** A string without a separator is split into itself alone. */
  lemma {:induction false} SplitNoSeparator(s: string, sep: char)
    requires sep !in s
    ensures Split(s, sep) == [s]
  {
    if |s| > 0 {
      assert s[0] != sep && sep !in s[1..];
      SplitNoSeparator(s[1..], sep);
      assert [s[0]] + s[1..] == s;
    }
  }

  /**
   * A separator-free prefix `a` only lengthens the first piece: the other
   * pieces are those of the remainder.
   */
  lemma {:induction false} SplitPrefix(a: string, s: string, sep: char)
    requires sep !in a
    ensures Split(a + s, sep)[0] == a + Split(s, sep)[0]
    ensures Split(a + s, sep)[1..] == Split(s, sep)[1..]
    ensures |Split(a + s, sep)| == |Split(s, sep)|
  {
    if |a| == 0 {
      assert a + s == s;
    } else {
      var rest := Split(a[1..] + s, sep);
      assert (a + s)[0] == a[0] && (a + s)[1..] == a[1..] + s;
      assert Split(a + s, sep) == [[a[0]] + rest[0]] + rest[1..];
      SplitPrefix(a[1..], s, sep);
      assert [a[0]] + (a[1..] + Split(s, sep)[0]) == a + Split(s, sep)[0];
    }
  }

  /** A separator-free piece followed by a separator comes out as the first part. */
  lemma SplitAfterPiece(a: string, rest: string, sep: char)
    requires sep !in a
    ensures Split(a + [sep] + rest, sep) == [a] + Split(rest, sep)
  {
    assert a + [sep] + rest == a + ([sep] + rest);
    SplitPrefix(a, [sep] + rest, sep);
    assert ([sep] + rest)[0] == sep && ([sep] + rest)[1..] == rest;
    var right := Split([sep] + rest, sep);
    assert right == [""] + Split(rest, sep);
    var whole := Split(a + [sep] + rest, sep);
    assert whole[0] == a && whole[1..] == Split(rest, sep);
    assert whole == [whole[0]] + whole[1..];
  }

  /** The first piece of `s` is a prefix of `s` that stops at the first separator. */
  lemma FirstPiece(s: string, sep: char)
    ensures Split(s, sep)[0] <= s
    ensures |Split(s, sep)[0]| < |s| ==> s[|Split(s, sep)[0]|] == sep
  {
    var parts := Split(s, sep);
    SplitPartitions(s, sep);
    if |parts| > 1 {
      assert s == parts[0] + ([sep] + Join(parts[1..], sep));
    }
  }

  /**
   * Split undoes join: separator-free pieces joined and split again come back
   * unchanged, so `Split` is the only decomposition its contract allows.
   */
  lemma {:induction false} SplitJoin(parts: seq<string>, sep: char)
    requires |parts| >= 1
    requires forall i :: 0 <= i < |parts| ==> sep !in parts[i]
    ensures Split(Join(parts, sep), sep) == parts
    decreases |parts|
  {
    if |parts| == 1 {
      SplitNoSeparator(parts[0], sep);
    } else {
      assert sep !in parts[0];
      SplitJoin(parts[1..], sep);
      SplitAfterPiece(parts[0], Join(parts[1..], sep), sep);
      assert parts == [parts[0]] + parts[1..];
    }
  }
}
