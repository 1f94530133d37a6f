/**
 * Bytes and the small string manipulations the file system relies on:
 * splitting on a separator (Python's `str.split`), joining, the decimal
 * rendering of message UIDs and Python's `str.rpartition`.
 */
module Text {

  /** One octet of a message body (Python `bytes`/`bytearray` element). */
  type Byte = bv8

  type Bytes = seq<Byte>

  // ---------------------------------------------------------------------
  // Split and Join

  /** Python's `s.split(sep)` for a one-character separator: never empty. */
  function Split(s: string, sep: char): (r: seq<string>)
    ensures |r| >= 1
    ensures forall i :: 0 <= i < |r| ==> sep !in r[i]
    decreases |s|
  {
    if s == [] then [""]
    else
      var rest := Split(s[1..], sep);
      if s[0] == sep then [""] + rest
      else [[s[0]] + rest[0]] + rest[1..]
  }

  /** `sep.join(parts)`. */
  function Join(parts: seq<string>, sep: char): string
    decreases |parts|
  {
    if |parts| == 0 then ""
    else if |parts| == 1 then parts[0]
    else parts[0] + [sep] + Join(parts[1..], sep)
  }

  /** Splitting a separator-free prefix glued to anything extends the first piece. */
  lemma {:induction false} SplitPrefix(t: string, s: string, sep: char)
    requires sep !in t
    ensures Split(t + s, sep) == [t + Split(s, sep)[0]] + Split(s, sep)[1..]
    decreases |t|
  {
    if t != [] {
      var rest := Split(t[1..] + s, sep);
      assert (t + s)[0] == t[0] != sep;
      assert (t + s)[1..] == t[1..] + s;
      SplitPrefix(t[1..], s, sep);
      assert Split(t + s, sep) == [[t[0]] + rest[0]] + rest[1..];
      assert [t[0]] + (t[1..] + Split(s, sep)[0]) == t + Split(s, sep)[0];
    } else {
      var r := Split(s, sep);
      assert t + s == s && t + r[0] == r[0];
      assert r == [r[0]] + r[1..];
    }
  }

  /** Splitting at a separator splits the two sides independently. */
  lemma {:induction false} SplitAppend(a: string, b: string, sep: char)
    ensures Split(a + [sep] + b, sep) == Split(a, sep) + Split(b, sep)
    decreases |a|
  {
    if a == [] {
      assert a + [sep] + b == [sep] + b;
      assert ([sep] + b)[1..] == b;
    } else {
      var s := a + [sep] + b;
      assert s[0] == a[0] && s[1..] == a[1..] + [sep] + b;
      SplitAppend(a[1..], b, sep);
      var ra := Split(a[1..], sep);
      if a[0] != sep {
        assert (ra + Split(b, sep))[0] == ra[0];
        assert (ra + Split(b, sep))[1..] == ra[1..] + Split(b, sep);
      }
    }
  }

  /** A string without the separator splits into itself. */
  lemma SplitNone(s: string, sep: char)
    requires sep !in s
    ensures Split(s, sep) == [s]
  {
    SplitPrefix(s, "", sep);
    assert s + "" == s;
  }

  /** Splitting undoes joining, when no piece contains the separator. */
  lemma {:induction false} SplitJoin(parts: seq<string>, sep: char)
    requires |parts| >= 1
    requires forall i :: 0 <= i < |parts| ==> sep !in parts[i]
    ensures Split(Join(parts, sep), sep) == parts
    decreases |parts|
  {
    if |parts| == 1 {
      SplitPrefix(parts[0], "", sep);
      assert parts[0] + "" == parts[0];
      assert Split("", sep) == [""];
      assert Split(parts[0], sep) == [parts[0] + ""];
    } else {
      var rest := Join(parts[1..], sep);
      SplitJoin(parts[1..], sep);
      assert parts[0] + [sep] + rest == parts[0] + ([sep] + rest);
      SplitPrefix(parts[0], [sep] + rest, sep);
      assert ([sep] + rest)[0] == sep && ([sep] + rest)[1..] == rest;
      assert Split([sep] + rest, sep) == [""] + parts[1..];
      assert parts[0] + "" == parts[0];
      assert parts == [parts[0]] + parts[1..];
    }
  }

  /** Joining undoes splitting. */
  lemma {:induction false} JoinSplit(s: string, sep: char)
    ensures Join(Split(s, sep), sep) == s
    decreases |s|
  {
    if s != [] {
      var rest := Split(s[1..], sep);
      JoinSplit(s[1..], sep);
      if s[0] == sep {
        assert Split(s, sep) == [""] + rest;
        assert ([""] + rest)[1..] == rest;
        assert s == [sep] + s[1..];
      } else {
        var parts := [[s[0]] + rest[0]] + rest[1..];
        assert parts[1..] == rest[1..];
        if |rest| == 1 {
          assert s[1..] == rest[0];
        } else {
          assert Join(rest, sep) == rest[0] + [sep] + Join(rest[1..], sep);
        }
      }
    }
  }

  // ---------------------------------------------------------------------
  // Decimal rendering of natural numbers (IMAP UIDs are such strings)

  function Digit(d: nat): (c: char)
    requires d < 10
    ensures '0' <= c <= '9'
  {
    ('0' as int + d) as char
  }

  /** The decimal digits of `n`, most significant first, without leading zeros. */
  function Decimal(n: nat): (r: string)
    ensures |r| >= 1
    ensures forall i :: 0 <= i < |r| ==> '0' <= r[i] <= '9'
    decreases n
  {
    if n < 10 then [Digit(n)] else Decimal(n / 10) + [Digit(n % 10)]
  }

  /** Distinct numbers have distinct decimal renderings. */
  lemma {:induction false} DecimalInjective(a: nat, b: nat)
    requires Decimal(a) == Decimal(b)
    ensures a == b
    decreases a
  {
    if a >= 10 && b >= 10 {
      var da, db := Decimal(a), Decimal(b);
      assert da[|da| - 1] == Digit(a % 10) && db[|db| - 1] == Digit(b % 10);
      assert da[..|da| - 1] == Decimal(a / 10) && db[..|db| - 1] == Decimal(b / 10);
      DecimalInjective(a / 10, b / 10);
    }
  }

  // ---------------------------------------------------------------------
  // rpartition

  /** Index of the last occurrence of `c` in `s`, if any. */
  function LastIndexOf(s: string, c: char): (r: int)
    ensures -1 <= r < |s|
    ensures r >= 0 ==> s[r] == c
    ensures forall i :: r < i < |s| ==> s[i] != c
    decreases |s|
  {
    if s == [] then -1
    else if s[|s| - 1] == c then |s| - 1
    else LastIndexOf(s[..|s| - 1], c)
  }

  /** Python's `s.rpartition(sep)[0]`: everything before the last separator, or "". */
  function RPartitionHead(s: string, sep: char): (r: string)
    ensures |r| <= |s| && r == s[..|r|]
    ensures sep !in s ==> r == ""
  {
    var k := LastIndexOf(s, sep);
    if k < 0 then "" else s[..k]
  }

  /** Python's `s.rpartition(sep)[2]`: everything after the last separator, or all of `s`. */
  function RPartitionTail(s: string, sep: char): (r: string)
    ensures |r| <= |s| && r == s[|s| - |r|..]
    ensures sep !in r
    ensures sep !in s ==> r == s
  {
    var k := LastIndexOf(s, sep);
    if k < 0 then s else s[k + 1..]
  }

  /** The two halves of rpartition put back together give the input; the tail holds no separator. */
  lemma RPartitionSpec(s: string, sep: char)
    ensures sep !in RPartitionTail(s, sep)
    ensures sep in s ==> RPartitionHead(s, sep) + [sep] + RPartitionTail(s, sep) == s
    ensures sep !in s ==> RPartitionHead(s, sep) == "" && RPartitionTail(s, sep) == s
  {
    var k := LastIndexOf(s, sep);
    if k >= 0 {
      assert s[..k] + [sep] + s[k + 1..] == s;
    } else {
      assert forall i :: 0 <= i < |s| ==> s[i] != sep;
    }
  }
}
