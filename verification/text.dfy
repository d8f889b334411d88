/** The string operations the adapter applies to file names and drug names:
    Python's `str.split(sep)` for a one-character separator, its inverse
    `sep.join(parts)`, and `str.replace(c, "")`. */
module Text {

  /** `sep.join(parts)`: the parts with one separator between neighbours. */
  function Join(parts: seq<string>, sep: char): string
  {
    if |parts| == 0 then ""
    else if |parts| == 1 then parts[0]
    else parts[0] + [sep] + Join(parts[1..], sep)
  }

  /** `s.split(sep)`: the maximal separator-free pieces of `s`, in order. There is
      always at least one piece, and a leading, trailing or doubled separator gives
      an empty piece. `JoinSplit` and `SplitJoin` show it is the inverse of `Join`. */
  function Split(s: string, sep: char): (parts: seq<string>)
    ensures |parts| >= 1
    ensures forall i :: 0 <= i < |parts| ==> sep !in parts[i]
    decreases |s|
  {
    if |s| == 0 then [""]
    else
      var rest := Split(s[1..], sep);
      if s[0] == sep then [""] + rest
      else [[s[0]] + rest[0]] + rest[1..]
  }

  /** Joining the pieces restores the string. */
  lemma {:induction false} JoinSplit(s: string, sep: char)
    ensures Join(Split(s, sep), sep) == s
    decreases |s|
  {
    if |s| > 0 {
      var rest := Split(s[1..], sep);
      JoinSplit(s[1..], sep);
      var parts := Split(s, sep);
      if s[0] == sep {
        assert parts[1..] == rest;
      } else {
        assert |rest| > 1 ==> parts[1..] == rest[1..];
      }
      assert s == [s[0]] + s[1..];
    }
  }

  /** A string without the separator is a single piece. */
  lemma {:induction false} SplitNoSeparator(s: string, sep: char)
    requires sep !in s
    ensures Split(s, sep) == [s]
    decreases |s|
  {
    if |s| > 0 {
      SplitNoSeparator(s[1..], sep);
      assert s == [s[0]] + s[1..];
    }
  }

  /** Splitting at one separator occurrence splits the two sides independently. */
  lemma {:induction false} SplitAround(a: string, b: string, sep: char)
    ensures Split(a + [sep] + b, sep) == Split(a, sep) + Split(b, sep)
    decreases |a|
  {
    if |a| == 0 {
      assert a + [sep] + b == [sep] + b;
      SplitConsSeparator(b, sep);
    } else {
      SplitAround(a[1..], b, sep);
      SplitAroundStep(a, b, sep);
    }
  }

  /** The inductive step of `SplitAround`: the property for `a` follows from the
      property for `a` without its first character. */
  lemma SplitAroundStep(a: string, b: string, sep: char)
    requires |a| > 0
    requires Split(a[1..] + [sep] + b, sep) == Split(a[1..], sep) + Split(b, sep)
    ensures Split(a + [sep] + b, sep) == Split(a, sep) + Split(b, sep)
  {
    var t := a[1..] + [sep] + b;
    assert a + [sep] + b == [a[0]] + t;
    assert a == [a[0]] + a[1..];
    if a[0] == sep {
      SplitAroundLeadingSeparator(a[1..], t, Split(b, sep), sep);
    } else {
      SplitAroundLeadingChar(a[0], a[1..], t, Split(b, sep), sep);
    }
  }

  /** The step when the first character is the separator. */
  lemma SplitAroundLeadingSeparator(u: string, t: string, sb: seq<string>, sep: char)
    requires Split(t, sep) == Split(u, sep) + sb
    ensures Split([sep] + t, sep) == Split([sep] + u, sep) + sb
  {
    SplitConsSeparator(t, sep);
    SplitConsSeparator(u, sep);
    var tail := Split(u, sep);
    assert [""] + (tail + sb) == ([""] + tail) + sb;
  }

  /** The step when the first character is not the separator. */
  lemma SplitAroundLeadingChar(c: char, u: string, t: string, sb: seq<string>, sep: char)
    requires c != sep
    requires Split(t, sep) == Split(u, sep) + sb
    ensures Split([c] + t, sep) == Split([c] + u, sep) + sb
  {
    SplitCons(c, t, sep);
    SplitCons(c, u, sep);
    var tail := Split(u, sep);
    var head := [c] + tail[0];
    assert Split(t, sep)[0] == tail[0];
    assert Split(t, sep)[1..] == tail[1..] + sb;
    assert [head] + (tail[1..] + sb) == ([head] + tail[1..]) + sb;
  }

  /** One step of `Split` on a string that starts with the separator. */
  lemma SplitConsSeparator(t: string, sep: char)
    ensures Split([sep] + t, sep) == [""] + Split(t, sep)
  {
    assert ([sep] + t)[1..] == t;
  }

  /** One step of `Split` on a string that starts with a non-separator. */
  lemma SplitCons(c: char, t: string, sep: char)
    requires c != sep
    ensures Split([c] + t, sep) == [[c] + Split(t, sep)[0]] + Split(t, sep)[1..]
  {
    assert ([c] + t)[1..] == t;
  }

  /** `Split` undoes `Join` on separator-free pieces: together with the contract of
      `Split` this makes the two functions inverse to each other. */
  lemma {:induction false} SplitJoin(parts: seq<string>, sep: char)
    requires |parts| >= 1
    requires forall i :: 0 <= i < |parts| ==> sep !in parts[i]
    ensures Split(Join(parts, sep), sep) == parts
    decreases |parts|
  {
    if |parts| == 1 {
      SplitNoSeparator(parts[0], sep);
    } else {
      SplitJoin(parts[1..], sep);
      SplitAround(parts[0], Join(parts[1..], sep), sep);
      SplitNoSeparator(parts[0], sep);
      assert parts == [parts[0]] + parts[1..];
    }
  }

  /** The last piece is the text after the last separator. */
  lemma LastPieceAfter(s: string, sep: char, i: nat)
    requires i <= |s| && (i == 0 || s[i - 1] == sep) && sep !in s[i..]
    ensures var parts := Split(s, sep); parts[|parts| - 1] == s[i..]
  {
    SplitNoSeparator(s[i..], sep);
    if i == 0 {
      assert s[i..] == s;
    } else {
      assert s == s[..i - 1] + [sep] + s[i..];
      SplitAround(s[..i - 1], s[i..], sep);
    }
  }

  /** The first piece is the text before the first separator. */
  lemma FirstPieceBefore(s: string, sep: char, j: nat)
    requires j <= |s| && sep !in s[..j] && (j == |s| || s[j] == sep)
    ensures Split(s, sep)[0] == s[..j]
  {
    SplitNoSeparator(s[..j], sep);
    if j == |s| {
      assert s[..j] == s;
    } else {
      assert s == s[..j] + [sep] + s[j + 1..];
      SplitAround(s[..j], s[j + 1..], sep);
    }
  }

  /** The text after the last separator (all of `s` when there is none). */
  function AfterLast(s: string, sep: char): string
    decreases |s|
  {
    if |s| == 0 || s[|s| - 1] == sep then ""
    else AfterLast(s[..|s| - 1], sep) + [s[|s| - 1]]
  }

  /** The text before the first separator (all of `s` when there is none). */
  function BeforeFirst(s: string, sep: char): string
    decreases |s|
  {
    if |s| == 0 || s[0] == sep then ""
    else [s[0]] + BeforeFirst(s[1..], sep)
  }

  /** `AfterLast` returns a separator-free suffix of `s`, preceded in `s` by the
      separator unless it is all of `s`. */
  lemma {:induction false} AfterLastShape(s: string, sep: char)
    ensures var t := AfterLast(s, sep);
      && sep !in t && |t| <= |s| && t == s[|s| - |t|..]
      && (|t| < |s| ==> s[|s| - |t| - 1] == sep)
    decreases |s|
  {
    if |s| > 0 && s[|s| - 1] != sep {
      var p := s[..|s| - 1];
      AfterLastShape(p, sep);
      var t := AfterLast(p, sep);
      var u := t + [s[|s| - 1]];
      assert AfterLast(s, sep) == u;
      assert p[|p| - |t|..] == s[|s| - 1 - |t|..|s| - 1];
      assert s[|s| - |u|..] == s[|s| - 1 - |t|..|s| - 1] + [s[|s| - 1]];
      assert sep !in u;
      if |u| < |s| {
        assert s[|s| - |u| - 1] == p[|p| - |t| - 1];
      }
    }
  }

  /** `BeforeFirst` returns a separator-free prefix of `s`, followed in `s` by the
      separator unless it is all of `s`. */
  lemma {:induction false} BeforeFirstShape(s: string, sep: char)
    ensures var t := BeforeFirst(s, sep);
      && sep !in t && |t| <= |s| && t == s[..|t|]
      && (|t| < |s| ==> s[|t|] == sep)
    decreases |s|
  {
    if |s| > 0 && s[0] != sep {
      BeforeFirstShape(s[1..], sep);
    }
  }

  /** `AfterLast` is the last piece of `Split`. */
  lemma AfterLastIsLastPiece(s: string, sep: char)
    ensures var parts := Split(s, sep); AfterLast(s, sep) == parts[|parts| - 1]
  {
    AfterLastShape(s, sep);
    LastPieceAfter(s, sep, |s| - |AfterLast(s, sep)|);
  }

  /** `BeforeFirst` is the first piece of `Split`. */
  lemma BeforeFirstIsFirstPiece(s: string, sep: char)
    ensures BeforeFirst(s, sep) == Split(s, sep)[0]
  {
    BeforeFirstShape(s, sep);
    FirstPieceBefore(s, sep, |BeforeFirst(s, sep)|);
  }

  /** `s.replace(c, "")`: `s` with every occurrence of `c` deleted. */
  function RemoveAll(s: string, c: char): (r: string)
    ensures c !in r
    ensures |r| <= |s|
    decreases |s|
  {
    if |s| == 0 then ""
    else
      var rest := RemoveAll(s[1..], c);
      if s[0] == c then rest else [s[0]] + rest
  }

  /** Every character other than `c` is kept as often as it occurs, and the
      result is shorter by the number of occurrences of `c`. */
  lemma {:induction false} RemoveAllCounts(s: string, c: char)
    ensures forall x :: x != c ==> multiset(RemoveAll(s, c))[x] == multiset(s)[x]
    ensures |RemoveAll(s, c)| == |s| - multiset(s)[c]
    decreases |s|
  {
    if |s| > 0 {
      RemoveAllCounts(s[1..], c);
      assert s == [s[0]] + s[1..];
      assert multiset(s) == multiset{s[0]} + multiset(s[1..]);
    }
  }

  /** A string free of `c` is returned unchanged. */
  lemma {:induction false} RemoveAllAbsent(s: string, c: char)
    requires c !in s
    ensures RemoveAll(s, c) == s
    decreases |s|
  {
    if |s| > 0 {
      RemoveAllAbsent(s[1..], c);
      assert s == [s[0]] + s[1..];
    }
  }

  /** Deleting `c` twice is the same as deleting it once. */
  lemma RemoveAllIdempotent(s: string, c: char)
    ensures RemoveAll(RemoveAll(s, c), c) == RemoveAll(s, c)
  {
    RemoveAllAbsent(RemoveAll(s, c), c);
  }

  /** One step of `RemoveAll`: the first character is kept unless it is `c`. */
  lemma RemoveAllCons(x: char, t: string, c: char)
    ensures RemoveAll([x] + t, c) == (if x == c then "" else [x]) + RemoveAll(t, c)
  {
    assert ([x] + t)[1..] == t;
  }

  /** On a single character, `RemoveAll` deletes it exactly when it is `c`. */
  lemma RemoveAllSingle(x: char, c: char)
    ensures RemoveAll([x], c) == if x == c then "" else [x]
  {
    RemoveAllCons(x, "", c);
    assert [x] + "" == [x];
  }

  /** `RemoveAll` works piece by piece: together with `RemoveAllSingle` this
      determines it, so the kept characters stay in their original order. */
  lemma {:induction false} RemoveAllConcat(a: string, b: string, c: char)
    ensures RemoveAll(a + b, c) == RemoveAll(a, c) + RemoveAll(b, c)
    decreases |a|
  {
    if |a| == 0 {
      assert a + b == b;
    } else {
      RemoveAllConcat(a[1..], b, c);
      RemoveAllConcatStep(a, b, c);
    }
  }

  /** The inductive step of `RemoveAllConcat`. */
  lemma RemoveAllConcatStep(a: string, b: string, c: char)
    requires |a| > 0
    requires RemoveAll(a[1..] + b, c) == RemoveAll(a[1..], c) + RemoveAll(b, c)
    ensures RemoveAll(a + b, c) == RemoveAll(a, c) + RemoveAll(b, c)
  {
    assert a + b == [a[0]] + (a[1..] + b);
    assert a == [a[0]] + a[1..];
    RemoveAllLeading(a[0], a[1..], a[1..] + b, RemoveAll(b, c), c);
  }

  /** Putting the same character in front of two strings keeps a common suffix
      of their results. */
  lemma RemoveAllLeading(x: char, u: string, t: string, rest: string, c: char)
    requires RemoveAll(t, c) == RemoveAll(u, c) + rest
    ensures RemoveAll([x] + t, c) == RemoveAll([x] + u, c) + rest
  {
    RemoveAllCons(x, t, c);
    RemoveAllCons(x, u, c);
    var head := if x == c then "" else [x];
    assert head + (RemoveAll(u, c) + rest) == (head + RemoveAll(u, c)) + rest;
  }
}
