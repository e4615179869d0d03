/**
 * Sequence and string helpers shared by the models: filtering, flattening, the comma join
 * of StringBuilder loops, Java's `String.split` and decimal rendering of numbers.
 * Every recursive definition peels the LAST element, so that a loop that appends at the
 * end is specified by the prefix it has already consumed.
 */
module Seqs {

  datatype Option<T> = None | Some(value: T)

  datatype Result<T> = Failure | Success(value: T)

  /** Moving one element from the pending part of a partition to the finished part. */
  lemma MoveOne<T>(todo: set<T>, done: set<T>, p: T, all: set<T>)
    requires p in todo && todo !! done && todo + done == all
    ensures todo - {p} !! done + {p} && (todo - {p}) + (done + {p}) == all
    ensures |todo - {p}| < |todo|
  {
  }

  /** The elements of `s` that satisfy `p`, in their original order. */
  function Filter<T(!new)>(s: seq<T>, p: T -> bool): (r: seq<T>)
    ensures |r| <= |s|
    ensures forall i :: 0 <= i < |r| ==> p(r[i])
  {
    if s == [] then []
    else Filter(s[..|s| - 1], p) + (if p(s[|s| - 1]) then [s[|s| - 1]] else [])
  }

  /** Filtering keeps exactly the elements that satisfy the predicate. */
  lemma {:induction false} FilterMembers<T(!new)>(s: seq<T>, p: T -> bool)
    ensures forall x :: x in Filter(s, p) <==> x in s && p(x)
    decreases |s|
  {
    if s != [] {
      var init, last := s[..|s| - 1], s[|s| - 1];
      FilterMembers(init, p);
      assert s == init + [last];
    }
  }

  /** Filtering distributes over concatenation. */
  lemma {:induction false} FilterAppend<T(!new)>(a: seq<T>, b: seq<T>, p: T -> bool)
    ensures Filter(a + b, p) == Filter(a, p) + Filter(b, p)
    decreases |b|
  {
    if b == [] {
      assert a + b == a;
    } else {
      assert (a + b)[..|a + b| - 1] == a + b[..|b| - 1];
      FilterAppend(a, b[..|b| - 1], p);
    }
  }

  /** Filtering keeps every occurrence of an element that passes and none of one that does not. */
  lemma {:induction false} FilterCount<T(!new)>(s: seq<T>, p: T -> bool, x: T)
    ensures multiset(Filter(s, p))[x] == if p(x) then multiset(s)[x] else 0
    decreases |s|
  {
    if s != [] {
      FilterCount(s[..|s| - 1], p, x);
      assert s == s[..|s| - 1] + [s[|s| - 1]];
    }
  }

  /** The concatenation of the sequences of `ss`, in order. */
  function Flatten<T(!new)>(ss: seq<seq<T>>): (r: seq<T>)
    ensures forall x :: x in r <==> exists i :: 0 <= i < |ss| && x in ss[i]
  {
    if ss == [] then []
    else
      var r := Flatten(ss[..|ss| - 1]) + ss[|ss| - 1];
      assert forall i :: 0 <= i < |ss| - 1 ==> ss[..|ss| - 1][i] == ss[i];
      r
  }

  /** Sum of the lengths of the sequences of `ss`. */
  function TotalLength<T>(ss: seq<seq<T>>): nat
  {
    if ss == [] then 0 else TotalLength(ss[..|ss| - 1]) + |ss[|ss| - 1]|
  }

  lemma {:induction false} FlattenLength<T(!new)>(ss: seq<seq<T>>)
    ensures |Flatten(ss)| == TotalLength(ss)
    decreases |ss|
  {
    if ss != [] {
      FlattenLength(ss[..|ss| - 1]);
    }
  }

  lemma {:induction false} FlattenAppend<T(!new)>(a: seq<seq<T>>, b: seq<seq<T>>)
    ensures Flatten(a + b) == Flatten(a) + Flatten(b)
    decreases |b|
  {
    if b == [] {
      assert a + b == a;
    } else {
      assert (a + b)[..|a + b| - 1] == a + b[..|b| - 1];
      FlattenAppend(a, b[..|b| - 1]);
    }
  }

  /** No element occurs twice. */
  predicate NoDuplicates<T(==)>(s: seq<T>)
  {
    forall i, j :: 0 <= i < j < |s| ==> s[i] != s[j]
  }

  /** In a sequence without duplicates every element occurs exactly once. */
  lemma {:induction false} NoDuplicatesCount<T>(s: seq<T>, x: T)
    requires NoDuplicates(s)
    ensures multiset(s)[x] == if x in s then 1 else 0
    decreases |s|
  {
    if s != [] {
      var s', y := s[..|s| - 1], s[|s| - 1];
      assert s == s' + [y];
      assert NoDuplicates(s');
      NoDuplicatesCount(s', x);
      forall i | 0 <= i < |s'| ensures s'[i] != y {
        assert s'[i] == s[i];
      }
    }
  }

  /** The elements of `xs` joined by `sep`, with no separator after the last one. */
  function Join(sep: char, xs: seq<string>): string
  {
    if xs == [] then ""
    else if |xs| == 1 then xs[0]
    else Join(sep, xs[..|xs| - 1]) + [sep] + xs[|xs| - 1]
  }

  /** Joining peels from the front as well as from the back. */
  lemma {:induction false} JoinCons(sep: char, x: string, ys: seq<string>)
    ensures Join(sep, [x] + ys) == if ys == [] then x else x + [sep] + Join(sep, ys)
    decreases |ys|
  {
    if |ys| > 1 {
      var zs, last := ys[..|ys| - 1], ys[|ys| - 1];
      assert ([x] + ys)[..|[x] + ys| - 1] == [x] + zs;
      calc {
        Join(sep, [x] + ys);
        Join(sep, [x] + zs) + [sep] + last;
        { JoinCons(sep, x, zs); }
        x + [sep] + Join(sep, zs) + [sep] + last;
        x + [sep] + (Join(sep, zs) + [sep] + last);
        x + [sep] + Join(sep, ys);
      }
    } else if |ys| == 1 {
      assert ([x] + ys)[..1] == [x];
    }
  }

  /** The separator occurs in a join only as a separator. */
  lemma {:induction false} JoinLength(sep: char, xs: seq<string>)
    ensures xs != [] ==> |Join(sep, xs)| == TotalLength(xs) + |xs| - 1
    decreases |xs|
  {
    if |xs| > 1 {
      JoinLength(sep, xs[..|xs| - 1]);
    }
  }

  /** Every piece between occurrences of `sep`, empty pieces included (as many pieces as separators plus one). */
  function SplitAll(s: string, sep: char): (r: seq<string>)
    ensures |r| >= 1
    ensures forall i :: 0 <= i < |r| ==> sep !in r[i]
  {
    if s == [] then [""]
    else if s[0] == sep then [""] + SplitAll(s[1..], sep)
    else
      var rest := SplitAll(s[1..], sep);
      [[s[0]] + rest[0]] + rest[1..]
  }

  /** A piece without separators splits into itself. */
  lemma {:induction false} SplitAllNoSep(x: string, sep: char)
    requires sep !in x
    ensures SplitAll(x, sep) == [x]
    decreases |x|
  {
    if x != [] {
      SplitAllNoSep(x[1..], sep);
      assert [x[0]] + x[1..] == x;
    }
  }

  /** A leading piece followed by a separator is split off as the first piece. */
  lemma {:induction false} SplitAllCons(x: string, sep: char, rest: string)
    requires sep !in x
    ensures SplitAll(x + [sep] + rest, sep) == [x] + SplitAll(rest, sep)
    decreases |x|
  {
    var s := x + [sep] + rest;
    if x == [] {
      assert s[1..] == rest;
    } else {
      assert s[1..] == x[1..] + [sep] + rest;
      SplitAllCons(x[1..], sep, rest);
      assert [x[0]] + x[1..] == x;
    }
  }

  /** Splitting undoes joining. */
  lemma {:induction false} SplitAllJoin(sep: char, xs: seq<string>)
    requires xs != []
    requires forall i :: 0 <= i < |xs| ==> sep !in xs[i]
    ensures SplitAll(Join(sep, xs), sep) == xs
    decreases |xs|
  {
    var x, ys := xs[0], xs[1..];
    assert xs == [x] + ys;
    JoinCons(sep, x, ys);
    if ys == [] {
      SplitAllNoSep(x, sep);
    } else {
      SplitAllCons(x, sep, Join(sep, ys));
      SplitAllJoin(sep, ys);
    }
  }

  lemma {:induction false} TotalLengthCons<T>(x: seq<T>, ys: seq<seq<T>>)
    ensures TotalLength([x] + ys) == |x| + TotalLength(ys)
    decreases |ys|
  {
    if ys != [] {
      assert ([x] + ys)[..|[x] + ys| - 1] == [x] + ys[..|ys| - 1];
      TotalLengthCons(x, ys[..|ys| - 1]);
    }
  }

  /** The pieces that remain after dropping the empty pieces at the end. */
  function DropTrailingEmpty(ps: seq<string>): (r: seq<string>)
    ensures |r| <= |ps| && r == ps[..|r|]
    ensures r != [] ==> r[|r| - 1] != ""
    ensures forall i :: |r| <= i < |ps| ==> ps[i] == ""
  {
    if ps == [] then []
    else if ps[|ps| - 1] == "" then DropTrailingEmpty(ps[..|ps| - 1])
    else ps
  }

  /**
   * Java's `String.split` with a one-character separator and no limit: the input itself when
   * the separator does not occur, otherwise every piece with the trailing empty pieces removed.
   */
  function JavaSplit(s: string, sep: char): (r: seq<string>)
    ensures forall i :: 0 <= i < |r| ==> sep !in r[i]
    ensures sep !in s ==> r == [s]
  {
    if sep !in s then [s] else DropTrailingEmpty(SplitAll(s, sep))
  }

  /** Java's split undoes a join whose last piece is not empty. */
  lemma JavaSplitJoin(sep: char, xs: seq<string>)
    requires xs != []
    requires forall i :: 0 <= i < |xs| ==> sep !in xs[i]
    requires |xs| == 1 || xs[|xs| - 1] != ""
    ensures JavaSplit(Join(sep, xs), sep) == xs
  {
    if |xs| == 1 {
    } else {
      var j := Join(sep, xs);
      assert j == Join(sep, xs[..|xs| - 1]) + [sep] + xs[|xs| - 1];
      assert j[|Join(sep, xs[..|xs| - 1])|] == sep;
      SplitAllJoin(sep, xs);
    }
  }

  /** The decimal digits of `n`, most significant first, as Java's `Integer.toString` writes a non-negative int. */
  function NatToString(n: nat): (r: string)
    ensures |r| >= 1
    ensures forall i :: 0 <= i < |r| ==> '0' <= r[i] <= '9'
    ensures r[0] == '0' ==> n == 0
  {
    if n < 10 then [Digit(n)] else NatToString(n / 10) + [Digit(n % 10)]
  }

  function Digit(d: nat): (c: char)
    requires d < 10
    ensures '0' <= c <= '9'
    ensures c == '0' <==> d == 0
  {
    ('0' as int + d) as char
  }

  /** Decimal digit value of a character written by `Digit`. */
  function DigitValue(c: char): nat
    requires '0' <= c <= '9'
  {
    (c as int - '0' as int) as nat
  }

  /** The number a digit string stands for. */
  function ParseNat(s: string): nat
    requires forall i :: 0 <= i < |s| ==> '0' <= s[i] <= '9'
  {
    if s == [] then 0 else 10 * ParseNat(s[..|s| - 1]) + DigitValue(s[|s| - 1])
  }

  /** Reading the decimal rendering back gives the number: distinct numbers render differently. */
  lemma {:induction false} NatToStringRoundTrip(n: nat)
    ensures ParseNat(NatToString(n)) == n
  {
    if n >= 10 {
      NatToStringRoundTrip(n / 10);
      var s, p := NatToString(n), NatToString(n / 10);
      assert s[..|s| - 1] == p;
      assert DigitValue(s[|s| - 1]) == n % 10;
      assert ParseNat(s) == 10 * ParseNat(p) + n % 10;
    }
  }
}
