/** The parts of Go's `strings` package that the node uses, on valid UTF-8 text seen as code points. */
module Text {

  /** Unicode white space, as `unicode.IsSpace` defines it. */
  predicate IsSpace(c: char) {
    var n := c as int;
    || 9 <= n <= 13 || n == 32 || n == 0x85 || n == 0xA0 || n == 0x1680
    || 0x2000 <= n <= 0x200A || n == 0x2028 || n == 0x2029 || n == 0x202F || n == 0x205F || n == 0x3000
  }

  function TrimLeft(s: string, cut: char -> bool): (r: string)
    ensures |r| <= |s|
    ensures r != "" ==> !cut(r[0]) && r[|r| - 1] == s[|s| - 1]
  {
    if s != "" && cut(s[0]) then TrimLeft(s[1..], cut) else s
  }

  function TrimRight(s: string, cut: char -> bool): (r: string)
    ensures |r| <= |s|
    ensures r != "" ==> r[0] == s[0] && !cut(r[|r| - 1])
  {
    if s != "" && cut(s[|s| - 1]) then TrimRight(s[..|s| - 1], cut) else s
  }

  /** `strings.Trim` for the set of characters `cut`. */
  function Trim(s: string, cut: char -> bool): (r: string)
    ensures r != "" ==> !cut(r[0]) && !cut(r[|r| - 1])
  {
    TrimRight(TrimLeft(s, cut), cut)
  }

  function TrimSpace(s: string): (r: string)
    ensures Trimmed(r)
  {
    Trim(s, IsSpace)
  }

  /** Text that `TrimSpace` leaves alone. */
  predicate Trimmed(s: string) {
    s != "" ==> !IsSpace(s[0]) && !IsSpace(s[|s| - 1])
  }

  /** Text that neither begins nor ends with a cut character stays. */
  lemma TrimFixed(s: string, cut: char -> bool)
    requires s != "" ==> !cut(s[0]) && !cut(s[|s| - 1])
    ensures Trim(s, cut) == s
  {}

  lemma TrimmedIsFixed(s: string)
    requires Trimmed(s)
    ensures TrimSpace(s) == s
  {}

  lemma {:induction false} TrimLeftCuts(s: string, cut: char -> bool) returns (n: nat)
    ensures n <= |s| && TrimLeft(s, cut) == s[n..] && forall i :: 0 <= i < n ==> cut(s[i])
  {
    if s != "" && cut(s[0]) {
      var m := TrimLeftCuts(s[1..], cut);
      n := m + 1;
      assert s[1..][m..] == s[n..];
      assert forall i :: 0 < i < n ==> s[i] == s[1..][i - 1];
    } else {
      n := 0;
      assert s[0..] == s;
    }
  }

  lemma {:induction false} TrimRightCuts(s: string, cut: char -> bool) returns (n: nat)
    ensures n <= |s| && TrimRight(s, cut) == s[..n] && forall i :: n <= i < |s| ==> cut(s[i])
  {
    if s != "" && cut(s[|s| - 1]) {
      n := TrimRightCuts(s[..|s| - 1], cut);
      assert s[..|s| - 1][..n] == s[..n];
      assert forall i :: n <= i < |s| - 1 ==> s[i] == s[..|s| - 1][i];
    } else {
      n := |s|;
      assert s[..|s|] == s;
    }
  }

  /** Trimming takes away a prefix and a suffix of cut characters, and what is left neither begins nor ends with
      one. */
  lemma TrimExact(s: string, cut: char -> bool) returns (from: nat, to: nat)
    ensures from <= to <= |s| && Trim(s, cut) == s[from..to]
    ensures forall i :: 0 <= i < from || to <= i < |s| ==> cut(s[i])
    ensures from < to ==> !cut(s[from]) && !cut(s[to - 1])
  {
    from := TrimLeftCuts(s, cut);
    var n := TrimRightCuts(s[from..], cut);
    to := from + n;
    assert s[from..][..n] == s[from..to];
    assert forall i :: to <= i < |s| ==> s[i] == s[from..][i - from];
    assert from < to ==> Trim(s, cut)[0] == s[from] && Trim(s, cut)[n - 1] == s[to - 1];
  }

  /** The pieces with the separator between them again. */
  function Join<T>(pieces: seq<seq<T>>, sep: T): (s: seq<T>)
    requires pieces != []
  {
    if |pieces| == 1 then pieces[0] else Join(pieces[..|pieces| - 1], sep) + [sep] + pieces[|pieces| - 1]
  }

  /** Splitting and joining undo each other on pieces without the separator. */
  lemma {:induction false} SplitJoin<T>(pieces: seq<seq<T>>, sep: T)
    requires pieces != [] && forall i :: 0 <= i < |pieces| ==> sep !in pieces[i]
    ensures Split(Join(pieces, sep), sep) == pieces
  {
    if |pieces| == 1 {
      SplitWhole(pieces[0], sep);
    } else {
      var front, last := pieces[..|pieces| - 1], pieces[|pieces| - 1];
      SplitJoin(front, sep);
      SplitConcat(Join(front, sep), last, sep);
      SplitWhole(last, sep);
      assert pieces == front + [last];
    }
  }

  lemma JoinFirst<T>(c: T, piece: seq<T>, rest: seq<seq<T>>, sep: T)
    ensures Join([[c] + piece] + rest, sep) == [c] + Join([piece] + rest, sep)
    decreases |rest|
  {
    var all, short := [[c] + piece] + rest, [piece] + rest;
    if rest != [] {
      var front, last := rest[..|rest| - 1], rest[|rest| - 1];
      assert all[..|all| - 1] == [[c] + piece] + front && short[..|short| - 1] == [piece] + front;
      JoinFirst(c, piece, front, sep);
    }
  }

  lemma JoinEmptyFirst<T>(rest: seq<seq<T>>, sep: T)
    requires rest != []
    ensures Join([[]] + rest, sep) == [sep] + Join(rest, sep)
    decreases |rest|
  {
    var all: seq<seq<T>> := [[]] + rest;
    if |rest| == 1 {
      var one: seq<seq<T>> := [[]];
      assert all[..1] == one && Join(one, sep) == [];
    } else {
      var front := rest[..|rest| - 1];
      assert all[..|all| - 1] == [[]] + front;
      JoinEmptyFirst(front, sep);
    }
  }

  lemma {:induction false} JoinSplit<T>(s: seq<T>, sep: T)
    ensures Join(Split(s, sep), sep) == s
    decreases |s|
  {
    if s != [] {
      JoinSplit(s[1..], sep);
      var rest := Split(s[1..], sep);
      if s[0] == sep {
        JoinEmptyFirst(rest, sep);
      } else {
        JoinFirst(s[0], rest[0], rest[1..], sep);
        assert [rest[0]] + rest[1..] == rest;
      }
      assert s == [s[0]] + s[1..];
    }
  }

  /** The trimmed non-blank entries of `ts`, in order. */
  function KeepTrimmed(ts: seq<string>): (r: seq<string>)
    ensures AllTrimmed(r)
  {
    if ts == [] then []
    else
      var t := TrimSpace(ts[|ts| - 1]);
      KeepTrimmed(ts[..|ts| - 1]) + if t == "" then [] else [t]
  }

  /** How many of the entries leave something after trimming. */
  function KeptCount(ts: seq<string>): nat {
    |KeepTrimmed(ts)|
  }

  /** The entry at index `i` is kept, trimmed, behind those kept before it, exactly if trimming leaves something. */
  lemma {:induction false} KeptExact(ts: seq<string>, i: nat)
    requires i < |ts|
    ensures KeepTrimmed(ts[..i]) <= KeepTrimmed(ts)
    ensures if TrimSpace(ts[i]) == "" then KeptCount(ts[..i + 1]) == KeptCount(ts[..i])
            else KeptCount(ts[..i]) < KeptCount(ts) && KeepTrimmed(ts)[KeptCount(ts[..i])] == TrimSpace(ts[i])
                 && KeptCount(ts[..i + 1]) == KeptCount(ts[..i]) + 1
    decreases |ts| - i
  {
    KeepTrimmedStep(ts, i);
    if i + 1 < |ts| {
      KeptExact(ts, i + 1);
    } else {
      assert ts[..i + 1] == ts;
    }
  }

  predicate AllTrimmed(ts: seq<string>) {
    forall i :: 0 <= i < |ts| ==> ts[i] != "" && Trimmed(ts[i])
  }

  lemma KeepTrimmedStep(ts: seq<string>, i: nat)
    requires i < |ts|
    ensures KeepTrimmed(ts[..i + 1]) ==
            if TrimSpace(ts[i]) == "" then KeepTrimmed(ts[..i]) else KeepTrimmed(ts[..i]) + [TrimSpace(ts[i])]
  {
    assert ts[..i + 1][..i] == ts[..i];
  }

  lemma {:induction false} KeepTrimmedFixed(ts: seq<string>)
    requires AllTrimmed(ts)
    ensures KeepTrimmed(ts) == ts
  {
    if ts != [] {
      var front, last := ts[..|ts| - 1], ts[|ts| - 1];
      assert ts == front + [last];
      KeepTrimmedFixed(front);
      TrimmedIsFixed(last);
    }
  }

  /** `strings.Split` for a one-element separator: always at least one piece. */
  function Split<T(==)>(s: seq<T>, sep: T): (r: seq<seq<T>>)
    ensures |r| >= 1
    decreases |s|
  {
    if s == [] then [[]]
    else
      var rest := Split(s[1..], sep);
      if s[0] == sep then [[]] + rest else [[s[0]] + rest[0]] + rest[1..]
  }

  /** Pieces hold no separator and together are no longer than the text; a text with a
      separator splits into strictly shorter pieces. */
  lemma {:induction false} SplitPieces<T>(s: seq<T>, sep: T)
    ensures forall i :: 0 <= i < |Split(s, sep)| ==> sep !in Split(s, sep)[i]
    ensures forall i :: 0 <= i < |Split(s, sep)| ==>
              |Split(s, sep)[i]| <= |s| && (sep in s ==> |Split(s, sep)[i]| < |s|)
    decreases |s|
  {
    if s != [] {
      SplitPieces(s[1..], sep);
      var rest := Split(s[1..], sep);
      forall i | 0 <= i < |Split(s, sep)|
        ensures sep !in Split(s, sep)[i]
        ensures |Split(s, sep)[i]| <= |s| && (sep in s ==> |Split(s, sep)[i]| < |s|)
      {
        if s[0] == sep {
          assert Split(s, sep)[i] == if i == 0 then [] else rest[i - 1];
        } else if i > 0 {
          assert Split(s, sep)[i] == rest[i];
        } else {
          assert sep in s ==> sep in s[1..];
        }
      }
    }
  }

  lemma {:induction false} SplitWhole<T>(s: seq<T>, sep: T)
    requires sep !in s
    ensures Split(s, sep) == [s]
    decreases |s|
  {
    if s != [] {
      SplitWhole(s[1..], sep);
      assert [s[0]] + s[1..] == s;
    }
  }

  lemma SplitFirst<T>(c: T, s: seq<T>, sep: T)
    ensures Split([c] + s, sep)
            == if c == sep then [[]] + Split(s, sep) else [[c] + Split(s, sep)[0]] + Split(s, sep)[1..]
  {}

  lemma PiecesConcat<T>(c: T, rest: seq<seq<T>>, tail: seq<seq<T>>)
    requires rest != []
    ensures [[]] + (rest + tail) == ([[]] + rest) + tail
    ensures [[c] + (rest + tail)[0]] + (rest + tail)[1..] == ([[c] + rest[0]] + rest[1..]) + tail
  {}

  lemma {:induction false} SplitConcat<T>(a: seq<T>, b: seq<T>, sep: T)
    ensures Split(a + [sep] + b, sep) == Split(a, sep) + Split(b, sep)
    decreases |a|
  {
    if a == [] {
      assert a + [sep] + b == [sep] + b;
      SplitFirst(sep, b, sep);
    } else {
      SplitConcat(a[1..], b, sep);
      SplitFirst(a[0], a[1..] + [sep] + b, sep);
      SplitFirst(a[0], a[1..], sep);
      assert a + [sep] + b == [a[0]] + (a[1..] + [sep] + b) && a == [a[0]] + a[1..];
      PiecesConcat(a[0], Split(a[1..], sep), Split(b, sep));
    }
  }

  lemma SeparatorOutsidePrefix<T>(a: seq<T>, x: seq<T>, b: seq<T>, y: seq<T>, sep: T)
    requires sep !in b
    requires a + [sep] + x == b + [sep] + y
    ensures |b| <= |a|
  {
    var s := a + [sep] + x;
    assert s[|a|] == sep;
    assert forall i :: 0 <= i < |b| ==> s[i] == b[i];
  }

  lemma SeparatorOutsideSuffix<T>(a: seq<T>, x: seq<T>, b: seq<T>, y: seq<T>, sep: T)
    requires sep !in y
    requires a + [sep] + x == b + [sep] + y
    ensures |a| <= |b|
  {
    var s := a + [sep] + x;
    assert s[|a|] == sep;
    assert forall i :: |b| < i < |s| ==> s[i] == y[i - |b| - 1];
  }

  /** Text up to the first separator is determined by the whole. */
  lemma FirstSeparatorUnique<T>(a: seq<T>, x: seq<T>, b: seq<T>, y: seq<T>, sep: T)
    requires sep !in a && sep !in b
    requires a + [sep] + x == b + [sep] + y
    ensures a == b && x == y
  {
    SeparatorOutsidePrefix(a, x, b, y, sep);
    SeparatorOutsidePrefix(b, y, a, x, sep);
    SplitPoint(a, x, b, y, sep);
  }

  /** Text from the last separator on is determined by the whole. */
  lemma LastSeparatorUnique<T>(a: seq<T>, x: seq<T>, b: seq<T>, y: seq<T>, sep: T)
    requires sep !in x && sep !in y
    requires a + [sep] + x == b + [sep] + y
    ensures a == b && x == y
  {
    SeparatorOutsideSuffix(a, x, b, y, sep);
    SeparatorOutsideSuffix(b, y, a, x, sep);
    SplitPoint(a, x, b, y, sep);
  }

  lemma SplitPoint<T>(a: seq<T>, x: seq<T>, b: seq<T>, y: seq<T>, sep: T)
    requires |a| == |b|
    requires a + [sep] + x == b + [sep] + y
    ensures a == b && x == y
  {
    var s, t := a + [sep] + x, b + [sep] + y;
    assert a == s[..|a|] && b == t[..|b|];
    assert x == s[|a| + 1..] && y == t[|b| + 1..];
  }
}
