/**
 * Trace file names: `filepath.Join(dir, fmt.Sprintf("%s%04d", prefix, seq))`.
 */
module Names {

  predicate IsDigit(c: char) { '0' <= c <= '9' }

  function DigitChar(d: nat): (c: char)
    requires d < 10
    ensures IsDigit(c)
  {
    ('0' as int + d) as char
  }

  function DigitValue(c: char): (d: nat)
    requires IsDigit(c)
    ensures d < 10
  {
    c as int - '0' as int
  }

  predicate AllDigits(s: string)
  {
    forall i :: 0 <= i < |s| ==> IsDigit(s[i])
  }

  /** n in decimal, without leading zeros ("%d"). */
  function Decimal(n: nat): (s: string)
    ensures |s| >= 1 && AllDigits(s)
  {
    if n < 10 then [DigitChar(n)] else Decimal(n / 10) + [DigitChar(n % 10)]
  }

  /** The value of a string of decimal digits; leading zeros contribute nothing. */
  function ParseDecimal(s: string): nat
    requires AllDigits(s)
  {
    if s == [] then 0 else 10 * ParseDecimal(s[..|s| - 1]) + DigitValue(s[|s| - 1])
  }

  function Zeros(k: nat): (s: string)
    ensures |s| == k && AllDigits(s)
  {
    if k == 0 then [] else ['0'] + Zeros(k - 1)
  }

  /** n in decimal, left-padded with zeros to at least four digits ("%04d"). */
  function Pad4(n: nat): (s: string)
    ensures AllDigits(s)
  {
    var d := Decimal(n);
    if |d| < 4 then Zeros(4 - |d|) + d else d
  }

  lemma {:induction false} DecimalParses(n: nat)
    ensures ParseDecimal(Decimal(n)) == n
  {
    if n >= 10 {
      var s := Decimal(n);
      assert s[..|s| - 1] == Decimal(n / 10);
      DecimalParses(n / 10);
    }
  }

  lemma {:induction false} ZerosParse(k: nat)
    ensures ParseDecimal(Zeros(k)) == 0
  {
    if k > 0 {
      var z := Zeros(k);
      assert z[..|z| - 1] == Zeros(k - 1) by {
        if k > 1 {
          ZerosShift(k);
        }
      }
      ZerosParse(k - 1);
    }
  }

  lemma {:induction false} ZerosShift(k: nat)
    requires k > 0
    ensures Zeros(k) == Zeros(k - 1) + ['0']
  {
    if k > 1 {
      ZerosShift(k - 1);
      assert Zeros(k) == ['0'] + (Zeros(k - 2) + ['0']);
    }
  }

  lemma {:induction false} LeadingZerosIgnored(k: nat, s: string)
    requires AllDigits(s)
    ensures AllDigits(Zeros(k) + s)
    ensures ParseDecimal(Zeros(k) + s) == ParseDecimal(s)
  {
    var t := Zeros(k) + s;
    assert AllDigits(t) by {
      forall i | 0 <= i < |t| ensures IsDigit(t[i]) {
        if i < k { assert t[i] == Zeros(k)[i]; } else { assert t[i] == s[i - k]; }
      }
    }
    if s == [] {
      assert t == Zeros(k);
      ZerosParse(k);
    } else {
      assert t[..|t| - 1] == Zeros(k) + s[..|s| - 1];
      LeadingZerosIgnored(k, s[..|s| - 1]);
    }
  }

  /** %04d never truncates: the padded text still reads back as n. */
  lemma Pad4Parses(n: nat)
    ensures ParseDecimal(Pad4(n)) == n
  {
    var d := Decimal(n);
    DecimalParses(n);
    if |d| < 4 {
      LeadingZerosIgnored(4 - |d|, d);
    }
  }

  lemma {:induction false} DecimalShort(n: nat)
    requires n < 10000
    ensures |Decimal(n)| <= 4
  {
    if n >= 10 {
      DecimalShort(n / 10);
      if n >= 1000 {
        assert n / 10 >= 100;
        DecimalAtLeast3(n / 10);
      }
    }
  }

  lemma {:induction false} DecimalAtLeast3(n: nat)
    requires 100 <= n < 1000
    ensures |Decimal(n)| == 3
  {
    assert Decimal(n / 10 / 10) == [DigitChar(n / 100)];
  }

  /**
   * %04d yields at least four digits and, below 10000, exactly four; it pads
   * only numbers of fewer than four digits, with zeros before the decimal
   * digits of n.
   */
  lemma Pad4Shape(n: nat)
    ensures |Pad4(n)| >= 4
    ensures n < 10000 ==> |Pad4(n)| == 4
    ensures |Pad4(n)| == if |Decimal(n)| < 4 then 4 else |Decimal(n)|
    ensures Pad4(n)[|Pad4(n)| - |Decimal(n)|..] == Decimal(n)
    ensures forall i :: 0 <= i < |Pad4(n)| - |Decimal(n)| ==> Pad4(n)[i] == '0'
  {
    if n < 10000 {
      DecimalShort(n);
    }
    var d := Decimal(n);
    if |d| < 4 {
      ZerosAreZero(4 - |d|);
    }
  }

  lemma {:induction false} ZerosAreZero(k: nat)
    ensures forall i :: 0 <= i < k ==> Zeros(k)[i] == '0'
  {
    if k > 0 {
      ZerosAreZero(k - 1);
    }
  }

  /** filepath.Join of a directory and a base name, without path cleaning. */
  function Join(dir: string, name: string): (path: string)
    ensures |path| >= |name| && path[|path| - |name|..] == name
  {
    if dir == "" then name else dir + "/" + name
  }

  predicate EndsWith(s: string, tail: string)
  {
    |tail| <= |s| && s[|s| - |tail|..] == tail
  }

  /** The file a client with sequence number `number` is recorded into. */
  function FileName(dir: string, prefix: string, number: nat): (name: string)
    ensures EndsWith(name, prefix + Pad4(number))
  {
    Join(dir, prefix + Pad4(number))
  }

  /** Different sequence numbers never share a file. */
  lemma FileNameInjective(dir: string, prefix: string, a: nat, b: nat)
    requires FileName(dir, prefix, a) == FileName(dir, prefix, b)
    ensures a == b
  {
    var head := if dir == "" then prefix else dir + "/" + prefix;
    JoinSplits(dir, prefix, Pad4(a));
    JoinSplits(dir, prefix, Pad4(b));
    CommonHead(head, Pad4(a), Pad4(b));
    Pad4Parses(a);
    Pad4Parses(b);
  }

  lemma JoinSplits(dir: string, prefix: string, tail: string)
    ensures Join(dir, prefix + tail) == (if dir == "" then prefix else dir + "/" + prefix) + tail
  {
  }

  lemma CommonHead(head: string, x: string, y: string)
    requires head + x == head + y
    ensures x == y
  {
    assert x == (head + x)[|head|..];
    assert y == (head + y)[|head|..];
  }

  /** The first client of a server with prefix "client-" writes to "client-0001" in its directory. */
  lemma FirstClientFileName(dir: string)
    ensures FileName(dir, "client-", 1) == Join(dir, "client-0001")
  {
    assert Decimal(1) == ['1'];
    assert Zeros(3) == ['0', '0', '0'];
    assert Pad4(1) == "0001";
    assert "client-" + Pad4(1) == "client-0001";
  }
}
