/**
 * Go's `strings.Split(s, sep)` and `strings.Join(parts, sep)` for a one-byte separator,
 * as jws.go uses them with "." (jws.go:39, 49).
 */
module GoStrings {
  import opened GoBytes

  /** `strings.Split`: the pieces of `s` between separators; empty pieces are kept and "" gives [""]. */
  function Split(s: Bytes, sep: byte): (parts: seq<Bytes>)
    ensures |parts| == Count(s, sep) + 1
    ensures forall i :: 0 <= i < |parts| ==> Count(parts[i], sep) == 0
  {
    if s == [] then [[]]
    else
      var rest := Split(s[1..], sep);
      if s[0] == sep then [[]] + rest
      else [[s[0]] + rest[0]] + rest[1..]
  }

  /** `strings.Join`: the parts with one separator between each neighbouring pair. */
  function Join(parts: seq<Bytes>, sep: byte): (s: Bytes)
    ensures Count(s, sep) == SepsIn(parts, sep) + (if |parts| == 0 then 0 else |parts| - 1)
  {
    if |parts| == 0 then []
    else if |parts| == 1 then parts[0]
    else
      CountAppend(parts[0] + [sep], Join(parts[1..], sep), sep);
      CountAppend(parts[0], [sep], sep);
      parts[0] + [sep] + Join(parts[1..], sep)
  }

  /** Total number of separators inside the parts themselves. */
  function SepsIn(parts: seq<Bytes>, sep: byte): (n: nat)
  {
    if parts == [] then 0 else Count(parts[0], sep) + SepsIn(parts[1..], sep)
  }

  lemma {:induction false} CountAppend(a: Bytes, b: Bytes, c: byte)
    ensures Count(a + b, c) == Count(a, c) + Count(b, c)
  {
    if a == [] {
      assert a + b == b;
    } else {
      assert (a + b)[1..] == a[1..] + b;
      CountAppend(a[1..], b, c);
    }
  }

  /** A part free of separators, split on its own, is itself. */
  lemma {:induction false} SplitPlain(s: Bytes, sep: byte)
    requires Count(s, sep) == 0
    ensures Split(s, sep) == [s]
  {
    if s != [] {
      SplitPlain(s[1..], sep);
      assert [s[0]] + s[1..] == s;
    }
  }

  /** Splitting `a + [sep] + b`, where `a` has no separator, gives `a` followed by the pieces of `b`. */
  lemma {:induction false} SplitAfterPlain(a: Bytes, b: Bytes, sep: byte)
    requires Count(a, sep) == 0
    ensures Split(a + [sep] + b, sep) == [a] + Split(b, sep)
  {
    if a == [] {
      assert a + [sep] + b == [sep] + b;
      assert ([sep] + b)[1..] == b;
    } else {
      var s := a + [sep] + b;
      assert s[0] == a[0] && s[1..] == a[1..] + [sep] + b;
      SplitAfterPlain(a[1..], b, sep);
      assert [a[0]] + a[1..] == a;
    }
  }

  /** Join then Split gives back the parts, as long as no part contains the separator. */
  lemma {:induction false} SplitJoin(parts: seq<Bytes>, sep: byte)
    requires |parts| >= 1
    requires forall i :: 0 <= i < |parts| ==> Count(parts[i], sep) == 0
    ensures Split(Join(parts, sep), sep) == parts
  {
    if |parts| == 1 {
      SplitPlain(parts[0], sep);
    } else {
      SplitJoin(parts[1..], sep);
      SplitAfterPlain(parts[0], Join(parts[1..], sep), sep);
      assert parts == [parts[0]] + parts[1..];
    }
  }

  /** SplitJoin for the three segments of a compact token. */
  lemma SplitJoin3(a: Bytes, b: Bytes, c: Bytes, sep: byte)
    requires Count(a, sep) == 0 && Count(b, sep) == 0 && Count(c, sep) == 0
    ensures Split(Join([a, b, c], sep), sep) == [a, b, c]
  {
    var parts := [a, b, c];
    assert forall i :: 0 <= i < |parts| ==> Count(parts[i], sep) == 0;
    SplitJoin(parts, sep);
  }

  /** Joining a first part onto at least one more puts one separator after it. */
  lemma JoinCons(first: Bytes, rest: seq<Bytes>, sep: byte)
    requires |rest| >= 1
    ensures Join([first] + rest, sep) == first + [sep] + Join(rest, sep)
  {
    assert ([first] + rest)[1..] == rest;
  }

  /** Split then Join gives back the string. */
  lemma {:induction false} JoinSplit(s: Bytes, sep: byte)
    ensures Join(Split(s, sep), sep) == s
  {
    if s != [] {
      JoinSplit(s[1..], sep);
      var rest := Split(s[1..], sep);
      if s[0] == sep {
        JoinCons([], rest, sep);
        assert s == [] + [sep] + s[1..];
      } else if |rest| == 1 {
        assert s == [s[0]] + rest[0];
      } else {
        JoinCons([s[0]] + rest[0], rest[1..], sep);
        JoinCons(rest[0], rest[1..], sep);
        assert rest == [rest[0]] + rest[1..];
        assert s == [s[0]] + s[1..];
      }
    }
  }
}
