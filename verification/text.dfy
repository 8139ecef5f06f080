/**
 * The string operations the launch command and the interface scanner rely on:
 * ASCII lower-casing, splitting on a separator character (QString::split),
 * dropping empty parts (QString::SkipEmptyParts), joining, counting a character,
 * prefix and substring tests.
 */
module Text {

  function LowerChar(c: char): char {
    if 'A' <= c <= 'Z' then (c as int - 'A' as int + 'a' as int) as char else c
  }

  /** ASCII lower-casing, character by character. */
  function Lower(s: string): (r: string)
    ensures |r| == |s|
    ensures forall i :: 0 <= i < |s| ==> r[i] == LowerChar(s[i])
  {
    seq(|s|, i requires 0 <= i < |s| => LowerChar(s[i]))
  }

  lemma LowerIdempotent(s: string)
    ensures Lower(Lower(s)) == Lower(s)
  {
  }

  /** The pieces of `s` between occurrences of `sep`, empty pieces included. */
  function Split(s: string, sep: char): (parts: seq<string>)
    ensures |parts| >= 1
    ensures forall i :: 0 <= i < |parts| ==> sep !in parts[i]
    decreases |s|
  {
    if s == [] then [""]
    else
      var rest := Split(s[1..], sep);
      if s[0] == sep then [""] + rest
      else [[s[0]] + rest[0]] + rest[1..]
  }

  /** The parts, one after the other, with `sep` between neighbours. */
  function Join(parts: seq<string>, sep: string): string
    decreases |parts|
  {
    if |parts| == 0 then ""
    else if |parts| == 1 then parts[0]
    else parts[0] + sep + Join(parts[1..], sep)
  }

  /** The non-empty parts, in order. */
  function SkipEmpty(parts: seq<string>): seq<string>
    decreases |parts|
  {
    if parts == [] then []
    else (if parts[0] == "" then [] else [parts[0]]) + SkipEmpty(parts[1..])
  }

  /** The kept parts are the non-empty ones. */
  lemma {:induction false} SkipEmptyMembers(parts: seq<string>)
    ensures forall i :: 0 <= i < |SkipEmpty(parts)| ==> SkipEmpty(parts)[i] != "" && SkipEmpty(parts)[i] in parts
    ensures forall i :: 0 <= i < |parts| && parts[i] != "" ==> parts[i] in SkipEmpty(parts)
    decreases |parts|
  {
    if parts != [] {
      SkipEmptyMembers(parts[1..]);
      assert forall x :: x in parts[1..] ==> x in parts;
      assert forall i :: 1 <= i < |parts| ==> parts[i] == parts[1..][i - 1];
    }
  }

  /** QString::split(sep, QString::SkipEmptyParts). */
  function SplitSkipEmpty(s: string, sep: char): seq<string> {
    SkipEmpty(Split(s, sep))
  }

  function CountChar(s: string, c: char): (n: nat)
    ensures n == 0 <==> c !in s
    ensures n <= |s|
    decreases |s|
  {
    if s == [] then 0 else (if s[0] == c then 1 else 0) + CountChar(s[1..], c)
  }

  /** The index of the first occurrence of `c` in `s`. */
  function IndexOf(s: string, c: char): (i: nat)
    requires c in s
    ensures i < |s| && s[i] == c && c !in s[..i]
    decreases |s|
  {
    if s[0] == c then 0
    else
      var j := IndexOf(s[1..], c);
      assert s[..j + 1] == [s[0]] + s[1..][..j];
      j + 1
  }

  predicate StartsWith(s: string, prefix: string) {
    |prefix| <= |s| && s[..|prefix|] == prefix
  }

  /** True when `p` occurs in `s` as a contiguous piece. */
  predicate ContainsSubstring(s: string, p: string)
    decreases |s|
  {
    StartsWith(s, p) || (|s| > 0 && ContainsSubstring(s[1..], p))
  }

  // ---------------------------------------------------------------------------
  // Splitting and joining

  /** Joining the pieces of a split with the separator gives the string back. */
  lemma {:induction false} JoinSplit(s: string, sep: char)
    ensures Join(Split(s, sep), [sep]) == s
    decreases |s|
  {
    if s != [] {
      var rest := Split(s[1..], sep);
      JoinSplit(s[1..], sep);
      if s[0] == sep {
        assert Split(s, sep) == [""] + rest;
        assert ([""] + rest)[1..] == rest;
      } else {
        var parts := Split(s, sep);
        assert parts == [[s[0]] + rest[0]] + rest[1..];
        if |rest| == 1 {
          assert Join(parts, [sep]) == [s[0]] + rest[0];
        } else {
          assert parts[1..] == rest[1..];
          assert Join(rest, [sep]) == rest[0] + [sep] + Join(rest[1..], [sep]);
        }
      }
    }
  }

  /** A string without the separator splits into itself alone. */
  lemma {:induction false} SplitWithoutSeparator(s: string, sep: char)
    requires sep !in s
    ensures Split(s, sep) == [s]
    decreases |s|
  {
    if s != [] {
      SplitWithoutSeparator(s[1..], sep);
      assert [s[0]] + s[1..] == s;
    }
  }

  /** The first separator ends the first piece. */
  lemma {:induction false} SplitAtFirst(a: string, sep: char, b: string)
    requires sep !in a
    ensures Split(a + [sep] + b, sep) == [a] + Split(b, sep)
    decreases |a|
  {
    if a == [] {
      assert [sep] + b == a + [sep] + b;
      assert ([sep] + b)[1..] == b;
    } else {
      var s := a + [sep] + b;
      assert s[1..] == a[1..] + [sep] + b;
      SplitAtFirst(a[1..], sep, b);
      assert [a[0]] + a[1..] == a;
    }
  }

  /** A non-empty string without the separator is its own only non-empty piece. */
  lemma SingleToken(s: string, sep: char)
    requires s != "" && sep !in s
    ensures SplitSkipEmpty(s, sep) == [s]
  {
    SplitWithoutSeparator(s, sep);
    assert [s][1..] == [];
    assert SkipEmpty([s]) == [s] + SkipEmpty([]);
  }

  /** A character absent from every part and from the separator is absent from the join. */
  lemma {:induction false} JoinAvoids(parts: seq<string>, sep: string, c: char)
    requires forall i :: 0 <= i < |parts| ==> c !in parts[i]
    requires c !in sep
    ensures c !in Join(parts, sep)
    decreases |parts|
  {
    if |parts| > 1 {
      JoinAvoids(parts[1..], sep, c);
    }
  }

  // ---------------------------------------------------------------------------
  // Counting

  lemma {:induction false} CountConcat(a: string, b: string, c: char)
    ensures CountChar(a + b, c) == CountChar(a, c) + CountChar(b, c)
    decreases |a|
  {
    if a == [] {
      assert a + b == b;
    } else {
      assert (a + b)[0] == a[0];
      assert (a + b)[1..] == a[1..] + b;
      CountConcat(a[1..], b, c);
    }
  }

  /** A string with exactly one `c` is what lies before it, `c`, and what lies after it. */
  lemma ExactlyOne(s: string, c: char)
    requires CountChar(s, c) == 1
    ensures c !in s[..IndexOf(s, c)] && c !in s[IndexOf(s, c) + 1..]
    ensures s == s[..IndexOf(s, c)] + [c] + s[IndexOf(s, c) + 1..]
  {
    var i := IndexOf(s, c);
    assert s == s[..i] + [c] + s[i + 1..];
    CountConcat(s[..i] + [c], s[i + 1..], c);
    CountConcat(s[..i], [c], c);
    assert CountChar([c], c) == 1 + CountChar([], c);
  }

  /** In `a`, `c`, `b` with no `c` in `a`, the first `c` is the one after `a`. */
  lemma {:induction false} IndexOfFirst(a: string, c: char, b: string)
    requires c !in a
    ensures IndexOf(a + [c] + b, c) == |a|
    decreases |a|
  {
    if a != [] {
      assert (a + [c] + b)[1..] == a[1..] + [c] + b;
      IndexOfFirst(a[1..], c, b);
    }
  }

  // ---------------------------------------------------------------------------
  // Substrings

  lemma {:induction false} SubstringAfterPrefix(a: string, s: string, p: string)
    requires ContainsSubstring(s, p)
    ensures ContainsSubstring(a + s, p)
    decreases |a|
  {
    if a == [] {
      assert a + s == s;
    } else {
      assert (a + s)[1..] == a[1..] + s;
      SubstringAfterPrefix(a[1..], s, p);
    }
  }

  lemma SubstringOfConcat(a: string, p: string, b: string)
    ensures ContainsSubstring(a + p + b, p)
  {
    assert (p + b)[..|p|] == p;
    SubstringAfterPrefix(a, p + b, p);
    assert a + (p + b) == a + p + b;
  }

  /** Every part shows up in the join as a substring. */
  lemma {:induction false} JoinContainsPart(parts: seq<string>, sep: string, k: nat)
    requires k < |parts|
    ensures ContainsSubstring(Join(parts, sep), parts[k])
    decreases |parts|
  {
    if |parts| == 1 {
      SubstringOfConcat("", parts[0], "");
      assert "" + parts[0] + "" == parts[0];
    } else if k == 0 {
      SubstringOfConcat("", parts[0], sep + Join(parts[1..], sep));
      assert "" + parts[0] + (sep + Join(parts[1..], sep)) == Join(parts, sep);
    } else {
      JoinContainsPart(parts[1..], sep, k - 1);
      SubstringAfterPrefix(parts[0] + sep, Join(parts[1..], sep), parts[k]);
      assert (parts[0] + sep) + Join(parts[1..], sep) == Join(parts, sep);
    }
  }

  /** A two-character substring of a concatenation lies in one part or straddles the join. */
  lemma {:induction false} PairInConcat(a: string, b: string, p: string)
    requires |p| == 2 && ContainsSubstring(a + b, p)
    ensures || ContainsSubstring(a, p)
            || ContainsSubstring(b, p)
            || (|a| > 0 && |b| > 0 && a[|a| - 1] == p[0] && b[0] == p[1])
    decreases |a|
  {
    if a == [] {
      assert a + b == b;
    } else if StartsWith(a + b, p) {
      if |a| >= 2 {
        assert a[..2] == (a + b)[..2];
      } else {
        assert a[0] == p[0] && b[0] == p[1];
      }
    } else {
      assert (a + b)[1..] == a[1..] + b;
      PairInConcat(a[1..], b, p);
    }
  }

  /** Every character of a substring occurs in the text. */
  lemma {:induction false} SubstringChars(s: string, p: string, c: char)
    requires ContainsSubstring(s, p) && c in p
    ensures c in s
    decreases |s|
  {
    if StartsWith(s, p) {
      assert c in s[..|p|];
    } else {
      SubstringChars(s[1..], p, c);
    }
  }
}
