/** Splitting, joining and numerals, shared by the components. */
module Sequences {

  datatype Option<+T> = None | Some(value: T)

  /** `s.split(sep)` in JavaScript and `strings.Split` in Go, for a separator of one element. */
  function Split<T(==)>(s: seq<T>, sep: T): (parts: seq<seq<T>>)
    ensures |parts| >= 1
    ensures forall i :: 0 <= i < |parts| ==> sep !in parts[i]
    ensures Join(parts, sep) == s
  {
    if s == [] then [[]]
    else
      var rest := Split(s[1..], sep);
      if s[0] == sep then
        assert Join([[]] + rest, sep) == [] + [sep] + Join(rest, sep) by { assert ([[]] + rest)[1..] == rest; }
        [[]] + rest
      else
        assert Join([[s[0]] + rest[0]] + rest[1..], sep) == [s[0]] + Join(rest, sep) by {
          JoinGrow(rest, [s[0]], sep);
        }
        [[s[0]] + rest[0]] + rest[1..]
  }

  /** `parts.join(sep)`. */
  function Join<T>(parts: seq<seq<T>>, sep: T): seq<T>
  {
    if |parts| == 0 then []
    else if |parts| == 1 then parts[0]
    else parts[0] + [sep] + Join(parts[1..], sep)
  }

  lemma {:induction false} JoinGrow<T>(parts: seq<seq<T>>, head: seq<T>, sep: T)
    requires |parts| >= 1
    ensures Join([head + parts[0]] + parts[1..], sep) == head + Join(parts, sep)
  {
  }

  lemma JoinCons<T>(first: seq<T>, rest: seq<seq<T>>, sep: T)
    ensures Join([first] + rest, sep) == if rest == [] then first else first + [sep] + Join(rest, sep)
  {
    assert ([first] + rest)[1..] == rest;
  }

  /** Joining sets the separator between the parts. */
  lemma {:induction false} JoinSnoc<T>(parts: seq<seq<T>>, last: seq<T>, sep: T)
    ensures Join([], sep) == []
    ensures Join(parts + [last], sep) == if parts == [] then last else Join(parts, sep) + [sep] + last
    decreases |parts|
  {
    if |parts| == 0 {
      assert parts + [last] == [last];
    } else {
      JoinSnoc(parts[1..], last, sep);
      assert (parts + [last])[1..] == parts[1..] + [last];
      if |parts| > 1 {
        assert parts[0] + [sep] + (Join(parts[1..], sep) + [sep] + last)
               == (parts[0] + [sep] + Join(parts[1..], sep)) + [sep] + last;
      }
    }
  }

  /** A separator-free first part is cut off as it stands. */
  lemma {:induction false} SplitHead<T>(head: seq<T>, tail: seq<T>, sep: T)
    requires sep !in head
    ensures Split(head + [sep] + tail, sep) == [head] + Split(tail, sep)
  {
    var s := head + [sep] + tail;
    if head == [] {
      assert s[1..] == tail;
    } else {
      assert s[1..] == head[1..] + [sep] + tail;
      SplitHead(head[1..], tail, sep);
      assert [head[0]] + head[1..] == head;
    }
  }

  lemma {:induction false} SplitWhole<T>(s: seq<T>, sep: T)
    requires sep !in s
    ensures Split(s, sep) == [s]
  {
  }

  /** Splitting a joined list gives the list back, provided no part holds the separator. */
  lemma {:induction false} SplitJoin<T>(parts: seq<seq<T>>, sep: T)
    requires |parts| >= 1
    requires forall i :: 0 <= i < |parts| ==> sep !in parts[i]
    ensures Split(Join(parts, sep), sep) == parts
  {
    if |parts| == 1 {
      SplitWhole(parts[0], sep);
    } else {
      SplitJoin(parts[1..], sep);
      SplitHead(parts[0], Join(parts[1..], sep), sep);
      assert parts == [parts[0]] + parts[1..];
    }
  }

  /** `s.trim()` for a given notion of white space. */
  function TrimLeft<T>(s: seq<T>, isSpace: T -> bool): seq<T>
  {
    if s != [] && isSpace(s[0]) then TrimLeft(s[1..], isSpace) else s
  }

  function TrimRight<T>(s: seq<T>, isSpace: T -> bool): seq<T>
  {
    if s != [] && isSpace(s[|s| - 1]) then TrimRight(s[..|s| - 1], isSpace) else s
  }

  function Trim<T>(s: seq<T>, isSpace: T -> bool): seq<T>
  {
    TrimRight(TrimLeft(s, isSpace), isSpace)
  }

  ghost predicate AllSpace<T(!new)>(s: seq<T>, isSpace: T -> bool)
  {
    forall i :: 0 <= i < |s| ==> isSpace(s[i])
  }

  /** Trimming takes white space off both ends, and all there is. */
  lemma TrimExactly<T(!new)>(s: seq<T>, isSpace: T -> bool) returns (front: seq<T>, back: seq<T>)
    ensures s == front + Trim(s, isSpace) + back && AllSpace(front, isSpace) && AllSpace(back, isSpace)
    ensures var t := Trim(s, isSpace); t != [] ==> !isSpace(t[0]) && !isSpace(t[|t| - 1])
  {
    front := TrimLeftExactly(s, isSpace);
    back := TrimRightExactly(TrimLeft(s, isSpace), isSpace);
    var left, t := TrimLeft(s, isSpace), Trim(s, isSpace);
    assert t != [] ==> left[0] == t[0];
  }

  lemma {:induction false} TrimLeftExactly<T(!new)>(s: seq<T>, isSpace: T -> bool) returns (front: seq<T>)
    ensures s == front + TrimLeft(s, isSpace) && AllSpace(front, isSpace)
    ensures var t := TrimLeft(s, isSpace); t != [] ==> !isSpace(t[0])
  {
    if s != [] && isSpace(s[0]) {
      front := TrimLeftExactly(s[1..], isSpace);
      front := [s[0]] + front;
    } else {
      front := [];
    }
  }

  lemma {:induction false} TrimRightExactly<T(!new)>(s: seq<T>, isSpace: T -> bool) returns (back: seq<T>)
    ensures s == TrimRight(s, isSpace) + back && AllSpace(back, isSpace)
    ensures var t := TrimRight(s, isSpace); t != [] ==> !isSpace(t[|t| - 1])
  {
    if s != [] && isSpace(s[|s| - 1]) {
      back := TrimRightExactly(s[..|s| - 1], isSpace);
      back := back + [s[|s| - 1]];
    } else {
      back := [];
    }
  }

  /** What neither starts nor ends in white space stays as it is. */
  lemma TrimNothing<T>(s: seq<T>, isSpace: T -> bool)
    requires s != [] ==> !isSpace(s[0]) && !isSpace(s[|s| - 1])
    ensures Trim(s, isSpace) == s
  {
  }

  // ----- Decimal numerals -----

  /** The numeral of a number, `digit` giving the sign of each digit. */
  function Numeral<T>(n: nat, digit: nat -> T): (s: seq<T>)
    ensures |s| >= 1
    ensures forall i :: 0 <= i < |s| ==> exists d: nat :: d < 10 && s[i] == digit(d)
  {
    if n < 10 then [digit(n)] else Numeral(n / 10, digit) + [digit(n % 10)]
  }

  /** The number a numeral stands for; the empty one stands for 0. */
  function Number<T>(s: seq<T>, value: T -> nat): nat
  {
    if s == [] then 0 else 10 * Number(s[..|s| - 1], value) + value(s[|s| - 1])
  }

  lemma {:induction false} NumeralInverts<T>(n: nat, digit: nat -> T, value: T -> nat)
    requires forall d: nat :: d < 10 ==> value(digit(d)) == d
    ensures Number(Numeral(n, digit), value) == n
  {
    var s := Numeral(n, digit);
    if n < 10 {
      assert s[..0] == [];
    } else {
      NumeralInverts(n / 10, digit, value);
      assert s[..|s| - 1] == Numeral(n / 10, digit);
    }
  }
}
