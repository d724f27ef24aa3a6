/**
 * The two Go standard-library string functions the quiet-period parser relies
 * on: `strings.Split` with a one-character separator and `strconv.Atoi`
 * (base 10, 64-bit `int`). `Join` and `FormatDecimal` are their inverses,
 * used to state round trips.
 */
module GoStrings {
  import opened Wrappers
  import opened GoInts

  /** Number of occurrences of c in s. */
  function Count(s: string, c: char): nat {
    if |s| == 0 then 0 else (if s[0] == c then 1 else 0) + Count(s[1..], c)
  }

  lemma {:induction false} CountAppend(a: string, b: string, c: char)
    ensures Count(a + b, c) == Count(a, c) + Count(b, c)
  {
    if |a| > 0 {
      CountAppend(a[1..], b, c);
      assert (a + b)[1..] == a[1..] + b;
    } else {
      assert a + b == b;
    }
  }

  lemma {:induction false} CountAbsent(s: string, c: char)
    requires c !in s
    ensures Count(s, c) == 0
  {
    if |s| > 0 {
      assert s[0] in s;
      assert forall x :: x in s[1..] ==> x in s;
      CountAbsent(s[1..], c);
    }
  }

  /**
   * strings.Split(s, sep): the pieces of s between occurrences of sep. There is
   * always one more piece than there are separators, so the empty string gives
   * one empty piece, and no piece contains the separator.
   */
  function Split(s: string, sep: char): (r: seq<string>)
    ensures |r| == Count(s, sep) + 1
    ensures forall i :: 0 <= i < |r| ==> sep !in r[i]
  {
    if |s| == 0 then [""]
    else
      var rest := Split(s[1..], sep);
      if s[0] == sep then [""] + rest
      else [[s[0]] + rest[0]] + rest[1..]
  }

  /** strings.Join(parts, sep) for a non-empty list of parts. */
  function Join(parts: seq<string>, sep: char): string
    requires |parts| >= 1
  {
    if |parts| == 1 then parts[0] else parts[0] + [sep] + Join(parts[1..], sep)
  }

  /** Joining the pieces of a split gives back the original string. */
  lemma {:induction false} JoinSplit(s: string, sep: char)
    ensures Join(Split(s, sep), sep) == s
  {
    if |s| > 0 {
      var rest := Split(s[1..], sep);
      JoinSplit(s[1..], sep);
      if s[0] == sep {
        assert Split(s, sep) == [""] + rest;
        assert ([""] + rest)[1..] == rest;
        assert s == [sep] + s[1..];
      } else {
        var r := Split(s, sep);
        assert r == [[s[0]] + rest[0]] + rest[1..];
        if |rest| == 1 {
          assert s == [s[0]] + rest[0];
        } else {
          assert r[1..] == rest[1..];
          assert Join(rest, sep) == rest[0] + [sep] + Join(rest[1..], sep);
          assert s == [s[0]] + s[1..];
        }
      }
    }
  }

  /** Splitting a string whose first piece is free of the separator. */
  lemma {:induction false} SplitAfterPiece(a: string, b: string, sep: char)
    requires sep !in a
    ensures Split(a + b, sep) == [a + Split(b, sep)[0]] + Split(b, sep)[1..]
  {
    if |a| > 0 {
      SplitAfterPiece(a[1..], b, sep);
      var r := Split(b, sep);
      var rest := Split(a[1..] + b, sep);
      assert a[0] in a;
      assert (a + b)[1..] == a[1..] + b;
      assert (a + b)[0] == a[0];
      assert Split(a + b, sep) == [[a[0]] + rest[0]] + rest[1..];
      assert rest[1..] == r[1..];
      assert [a[0]] + (a[1..] + r[0]) == a + r[0];
    } else {
      assert a + b == b;
      var r := Split(b, sep);
      assert a + r[0] == r[0];
      assert r == [r[0]] + r[1..];
    }
  }

  /** Splitting joined separator-free pieces gives back the pieces. */
  lemma {:induction false} SplitJoin(parts: seq<string>, sep: char)
    requires |parts| >= 1
    requires forall i :: 0 <= i < |parts| ==> sep !in parts[i]
    ensures Split(Join(parts, sep), sep) == parts
  {
    if |parts| == 1 {
      SplitAfterPiece(parts[0], "", sep);
      assert parts[0] + "" == parts[0];
    } else {
      var tail := Join(parts[1..], sep);
      SplitJoin(parts[1..], sep);
      SplitAfterPiece(parts[0], [sep] + tail, sep);
      assert Split([sep] + tail, sep) == [""] + Split(tail, sep) by {
        assert ([sep] + tail)[1..] == tail;
      }
      assert parts[0] + [sep] + tail == parts[0] + ([sep] + tail);
      assert parts[0] + "" == parts[0];
      assert parts == [parts[0]] + parts[1..];
    }
  }

  predicate IsDigit(c: char) {
    '0' <= c <= '9'
  }

  predicate AllDigits(s: string) {
    forall i :: 0 <= i < |s| ==> IsDigit(s[i])
  }

  /** The number a non-empty run of ASCII digits denotes (leading zeros allowed). */
  function DecimalValue(ds: string): (r: Option<nat>)
  {
    if |ds| == 0 then None
    else
      var last := ds[|ds| - 1];
      if !IsDigit(last) then None
      else if |ds| == 1 then Some(last as int - '0' as int)
      else match DecimalValue(ds[..|ds| - 1])
        case None => None
        case Some(v) => Some(v * 10 + (last as int - '0' as int))
  }

  /** A run of ASCII digits has a value exactly when it is non-empty. */
  lemma {:induction false} DecimalValueDigits(ds: string)
    ensures DecimalValue(ds).Some? <==> |ds| >= 1 && AllDigits(ds)
  {
    if |ds| >= 2 {
      var front := ds[..|ds| - 1];
      DecimalValueDigits(front);
      assert AllDigits(ds) <==> AllDigits(front) && IsDigit(ds[|ds| - 1]) by {
        if AllDigits(front) && IsDigit(ds[|ds| - 1]) {
          forall i | 0 <= i < |ds| ensures IsDigit(ds[i]) {
            if i < |ds| - 1 { assert ds[i] == front[i]; }
          }
        }
        if AllDigits(ds) {
          forall i | 0 <= i < |front| ensures IsDigit(front[i]) {
            assert front[i] == ds[i];
          }
        }
      }
    }
  }

  /** s without its leading '+' or '-', if it has one. */
  function Unsigned(s: string): (digits: string)
    requires |s| > 0
    ensures s == digits || (s == [s[0]] + digits && (s[0] == '-' || s[0] == '+'))
  {
    if s[0] == '-' || s[0] == '+' then s[1..] else s
  }

  /**
   * strconv.Atoi(s): an optional '+' or '-' sign followed by at least one ASCII
   * digit, whose value must fit in a 64-bit int; anything else is an error.
   */
  function Atoi(s: string): (r: Option<int64>)
    ensures r.Some? && r.value < 0 ==> |s| > 0 && s[0] == '-'
  {
    if |s| == 0 then None
    else
      var digits := Unsigned(s);
      match DecimalValue(digits)
      case None => None
      case Some(magnitude) =>
        var v: int := if s[0] == '-' then -(magnitude as int) else magnitude as int;
        if InInt64(v) then Some(v) else None
  }

  /**
   * Atoi accepts exactly a non-empty text made of an optional sign and at
   * least one ASCII digit whose signed value fits in an int64, and returns
   * that value.
   */
  lemma AtoiAccepts(s: string)
    ensures Atoi(s).Some? ==> |s| > 0 && |Unsigned(s)| >= 1 && AllDigits(Unsigned(s))
    ensures |s| > 0 && |Unsigned(s)| >= 1 && AllDigits(Unsigned(s)) ==>
      && DecimalValue(Unsigned(s)).Some?
      && var v := if s[0] == '-' then -(DecimalValue(Unsigned(s)).value as int) else DecimalValue(Unsigned(s)).value;
      && (Atoi(s).Some? <==> InInt64(v))
      && (Atoi(s).Some? ==> Atoi(s).value == v)
  {
    if |s| > 0 {
      DecimalValueDigits(Unsigned(s));
    }
  }

  /** A leading '+' and leading zeros are accepted; empty, sign-only, trailing or leading junk is not. */
  lemma AtoiExamples()
    ensures Atoi("+10") == Some(10)
    ensures Atoi("007") == Some(7)
    ensures Atoi("-5") == Some(-5)
    ensures Atoi("") == None && Atoi("+") == None
    ensures Atoi("1a") == None
    ensures Atoi(" 1") == None
  {
    assert "007"[..2] == "00" && "00"[..1] == "0";
    assert "+10"[1..] == "10" && "10"[..1] == "1";
  }

  /** The decimal digits of n, without leading zeros (strconv.Itoa for n >= 0). */
  function FormatDecimal(n: nat): (r: string)
    ensures |r| >= 1 && AllDigits(r)
  {
    if n < 10 then [('0' as int + n) as char]
    else FormatDecimal(n / 10) + [('0' as int + n % 10) as char]
  }

  lemma {:induction false} DecimalValueOfFormat(n: nat)
    ensures DecimalValue(FormatDecimal(n)) == Some(n)
  {
    var r := FormatDecimal(n);
    if n >= 10 {
      DecimalValueOfFormat(n / 10);
      assert r[..|r| - 1] == FormatDecimal(n / 10);
    }
  }

  /** Atoi reads back every formatted int64-sized natural number. */
  lemma AtoiFormat(n: nat)
    requires n < TWO_63
    ensures Atoi(FormatDecimal(n)) == Some(n)
  {
    DecimalValueOfFormat(n);
  }
}
