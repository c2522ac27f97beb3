/** The pieces of JavaScript's String and Array behaviour that the plugins
    rely on: relational comparison of strings, `String.prototype.split` with
    a one-character separator and `Array.prototype.join`.

    A JavaScript string is a sequence of UTF-16 code units; it is modelled as
    a Dafny `string` with one `char` per code unit. */
module JsStrings {

  /** A decimal digit code unit, `[0-9]` in a regular expression. */
  predicate IsDigit(c: char) {
    '0' <= c <= '9'
  }

  /** The number a digit code unit stands for. */
  function DigitValue(c: char): int {
    c as int - '0' as int
  }

  /** `a < b` on two JavaScript strings: code-unit-wise lexicographic order,
      a proper prefix being smaller. */
  predicate Less(a: string, b: string)
    decreases |a|
  {
    if |b| == 0 then false
    else if |a| == 0 then true
    else if a[0] != b[0] then a[0] < b[0]
    else Less(a[1..], b[1..])
  }

  /** The comparison as ECMA-262's IsLessThan words it for strings: `a` is smaller
      when it is a proper prefix of `b`, or when at the first position where
      the two differ its code unit is the smaller one. */
  predicate LessByFirstDifference(a: string, b: string) {
    (|a| < |b| && a == b[..|a|])
    || exists k :: 0 <= k < |a| && k < |b| && a[..k] == b[..k] && a[k] < b[k]
  }

  /** The recursive comparison is IsLessThan's comparison. */
  lemma {:induction false} LessIsLexicographic(a: string, b: string)
    ensures Less(a, b) <==> LessByFirstDifference(a, b)
    decreases |a|
  {
    if |b| == 0 {
    } else if |a| == 0 {
      assert a == b[..0];
    } else if a[0] != b[0] {
      FirstDifferenceAtHead(a, b);
    } else {
      LessIsLexicographic(a[1..], b[1..]);
      FirstDifferenceAfterHead(a, b);
    }
  }

  /** Strings that differ in their first unit are ordered by it. */
  lemma FirstDifferenceAtHead(a: string, b: string)
    requires |a| > 0 && |b| > 0 && a[0] != b[0]
    ensures LessByFirstDifference(a, b) <==> a[0] < b[0]
  {
  }

  /** Strings with the same first unit compare as their rests do. */
  lemma FirstDifferenceAfterHead(a: string, b: string)
    requires |a| > 0 && |b| > 0 && a[0] == b[0]
    ensures LessByFirstDifference(a, b) <==> LessByFirstDifference(a[1..], b[1..])
  {
    var a', b' := a[1..], b[1..];
    if LessByFirstDifference(a', b') {
      if |a'| < |b'| && a' == b'[..|a'|] {
        assert a == [a[0]] + a' && b[..|a|] == [b[0]] + b'[..|a'|];
      } else {
        var k :| 0 <= k < |a'| && k < |b'| && a'[..k] == b'[..k] && a'[k] < b'[k];
        assert a[..k + 1] == [a[0]] + a'[..k] && b[..k + 1] == [b[0]] + b'[..k];
        assert a[k + 1] == a'[k] && b[k + 1] == b'[k];
      }
    }
    if LessByFirstDifference(a, b) {
      if |a| < |b| && a == b[..|a|] {
        assert a' == b'[..|a'|];
      } else {
        var k :| 0 <= k < |a| && k < |b| && a[..k] == b[..k] && a[k] < b[k];
        assert k > 0;
        assert a'[..k - 1] == a[..k][1..] && b'[..k - 1] == b[..k][1..];
        assert a'[k - 1] == a[k] && b'[k - 1] == b[k];
      }
    }
  }

  /** No string is smaller than itself. */
  lemma {:induction false} LessIrreflexive(a: string)
    ensures !Less(a, a)
    decreases |a|
  {
    if |a| > 0 {
      LessIrreflexive(a[1..]);
    }
  }

  /** Of two strings exactly one is smaller, or they are equal. */
  lemma {:induction false} LessTrichotomy(a: string, b: string)
    ensures !Less(a, a)
    ensures Less(a, b) ==> !Less(b, a)
    ensures a != b ==> Less(a, b) || Less(b, a)
    decreases |a|
  {
    LessIrreflexive(a);
    if |a| > 0 && |b| > 0 {
      LessTrichotomy(a[1..], b[1..]);
      if a[0] == b[0] && a != b {
        assert a == [a[0]] + a[1..] && b == [b[0]] + b[1..];
      }
    }
  }

  /** `a >= b`, which JavaScript computes as `!(a < b)`: `a` is equal to
      or greater than `b`. */
  function AtLeast(a: string, b: string): (r: bool)
    ensures r <==> a == b || Less(b, a)
  {
    LessTrichotomy(a, b);
    !Less(a, b)
  }

  /** `a <= b`, which JavaScript computes as `!(b < a)`: `a` is equal to
      or smaller than `b`. */
  function AtMost(a: string, b: string): (r: bool)
    ensures r <==> a == b || Less(a, b)
  {
    LessTrichotomy(b, a);
    !Less(b, a)
  }

  /** `s.split(sep)` for a one-character separator. There is always at least
      one part, and no part contains the separator. */
  function Split(s: string, sep: char): (parts: seq<string>)
    ensures |parts| >= 1
    ensures forall i :: 0 <= i < |parts| ==> sep !in parts[i]
    decreases |s|
  {
    if |s| == 0 then [""]
    else
      var rest := Split(s[1..], sep);
      if s[0] == sep then [""] + rest
      else [[s[0]] + rest[0]] + rest[1..]
  }

  /** An empty string splits into one empty part, and every separator
      closes one part, so there is one part more than there are
      separators. */
  lemma {:induction false} SplitPartCount(s: string, sep: char)
    ensures |Split(s, sep)| == multiset(s)[sep] + 1
    decreases |s|
  {
    if |s| > 0 {
      assert s == [s[0]] + s[1..];
      SplitPartCount(s[1..], sep);
    }
  }

  /** `parts.join(sep)`: the parts with `sep` between neighbours, and the
      empty string for no parts. */
  function Join(parts: seq<string>, sep: string): (r: string)
    ensures |parts| == 0 ==> r == ""
    ensures |parts| == 1 ==> r == parts[0]
    decreases |parts|
  {
    if |parts| == 0 then ""
    else if |parts| == 1 then parts[0]
    else parts[0] + sep + Join(parts[1..], sep)
  }

  /** `xs.map(f)`. */
  function Map<A, B>(f: A -> B, xs: seq<A>): (ys: seq<B>)
    ensures |ys| == |xs|
    ensures forall i :: 0 <= i < |xs| ==> ys[i] == f(xs[i])
  {
    seq(|xs|, i requires 0 <= i < |xs| => f(xs[i]))
  }

  /** Mapping a concatenation maps each side. */
  lemma MapConcat<A, B>(f: A -> B, a: seq<A>, b: seq<A>)
    ensures Map(f, a + b) == Map(f, a) + Map(f, b)
  {
    var l, r := Map(f, a + b), Map(f, a) + Map(f, b);
    forall i | 0 <= i < |l| ensures l[i] == r[i] {
      if i < |a| { assert (a + b)[i] == a[i]; } else { assert (a + b)[i] == b[i - |a|]; }
    }
  }

  /** Prefixing the first part prefixes the joined string. */
  lemma JoinPrefixFirst(c: string, parts: seq<string>, sep: string)
    requires |parts| >= 1
    ensures Join([c + parts[0]] + parts[1..], sep) == c + Join(parts, sep)
  {
    var q := [c + parts[0]] + parts[1..];
    assert q[1..] == parts[1..];
  }

  /** Joining a concatenation of two non-empty lists puts one separator
      between the two joined halves. */
  lemma {:induction false} JoinConcat(a: seq<string>, b: seq<string>, sep: string)
    requires |a| >= 1 && |b| >= 1
    ensures Join(a + b, sep) == Join(a, sep) + sep + Join(b, sep)
    decreases |a|
  {
    if |a| == 1 {
      assert (a + b)[0] == a[0];
      assert (a + b)[1..] == b;
    } else {
      JoinConcat(a[1..], b, sep);
      assert (a + b)[0] == a[0];
      assert (a + b)[1..] == a[1..] + b;
    }
  }

  /** A string without the separator splits into itself alone. */
  lemma {:induction false} SplitWithoutSeparator(s: string, sep: char)
    ensures sep !in s ==> Split(s, sep) == [s]
    decreases |s|
  {
    if |s| > 0 && sep !in s {
      assert s == [s[0]] + s[1..];
      SplitWithoutSeparator(s[1..], sep);
    }
  }

  /** Splitting at a separator between two strings splits each side
      independently. */
  lemma {:induction false} SplitConcat(x: string, y: string, sep: char)
    ensures Split(x + [sep] + y, sep) == Split(x, sep) + Split(y, sep)
    decreases |x|
  {
    if |x| == 0 {
      assert x + [sep] + y == [sep] + y;
      SplitCons(sep, y, sep);
    } else {
      var t := x[1..] + [sep] + y;
      assert x + [sep] + y == [x[0]] + t;
      assert x == [x[0]] + x[1..];
      SplitCons(x[0], t, sep);
      SplitCons(x[0], x[1..], sep);
      SplitConcat(x[1..], y, sep);
      ConsPartsAppend(x[0], sep, Split(x[1..], sep), Split(y, sep));
    }
  }

  /** The step of `SplitCons` only touches the first part, so it commutes
      with appending further parts. */
  lemma ConsPartsAppend(c: char, sep: char, rx: seq<string>, ry: seq<string>)
    requires |rx| >= 1
    ensures (if c == sep then [""] + (rx + ry) else [[c] + (rx + ry)[0]] + (rx + ry)[1..])
            == (if c == sep then [""] + rx else [[c] + rx[0]] + rx[1..]) + ry
  {
    if c != sep {
      assert (rx + ry)[0] == rx[0] && (rx + ry)[1..] == rx[1..] + ry;
    }
  }

  /** One step of `Split`: a leading separator closes an empty part, any
      other unit joins the first part of the rest. */
  lemma SplitCons(c: char, t: string, sep: char)
    ensures Split([c] + t, sep) ==
              if c == sep then [""] + Split(t, sep)
              else [[c] + Split(t, sep)[0]] + Split(t, sep)[1..]
  {
    assert ([c] + t)[0] == c && ([c] + t)[1..] == t;
  }

  /** Joining the parts of a split with the separator gives back the
      original string. */
  lemma {:induction false} JoinOfSplit(s: string, sep: char)
    ensures Join(Split(s, sep), [sep]) == s
    decreases |s|
  {
    if |s| > 0 {
      JoinOfSplit(s[1..], sep);
      var rest := Split(s[1..], sep);
      if s[0] == sep {
        assert ([""] + rest)[1..] == rest;
      } else {
        JoinPrefixFirst([s[0]], rest, [sep]);
      }
      assert s == [s[0]] + s[1..];
    }
  }

  /** Splitting a join of separator-free parts gives back the parts. */
  lemma {:induction false} SplitOfJoin(parts: seq<string>, sep: char)
    requires |parts| >= 1
    requires forall i :: 0 <= i < |parts| ==> sep !in parts[i]
    ensures Split(Join(parts, [sep]), sep) == parts
    decreases |parts|
  {
    SplitWithoutSeparator(parts[0], sep);
    if |parts| > 1 {
      SplitOfJoin(parts[1..], sep);
      SplitConcat(parts[0], Join(parts[1..], [sep]), sep);
      assert parts == [parts[0]] + parts[1..];
    }
  }
}
