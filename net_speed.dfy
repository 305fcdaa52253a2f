/**
 * The sampling and formatting logic of the Speed-Buzz panel widget
 * (src/extension.js): every tick reads the kernel's per-interface counter
 * table, sums the received and transmitted bytes of the real interfaces,
 * turns the difference from the previous tick into a rate in Kbps and
 * scales that rate to Kbps, Mbps, Gbps or Tbps for the panel label.
 */
module NetSpeed {
  import opened Js

  /** Seconds between two ticks. */
  const RefreshTime: real := 1.0
  /** One unit step: 1 Mbps == 1024 Kbps, and so on. */
  const UnitBase: real := 1024.0
  const Units: seq<string> := ["Kbps", "Mbps", "Gbps", "Tbps"]
  /** The label text shown before the first tick and after a failed one. */
  const DefaultNetSpeedText: string := "SB: ↓ -.-- --  ↑ -.-- --"
  /** Bits per byte. */
  const Bit: real := 8.0

  datatype Option<T> = None | Some(value: T)

  /** Outcome of reading the counter table: its lines, or a read error. */
  datatype FileRead = Contents(lines: seq<string>) | ReadFailed

  /** A scaled rate: the number printed and the index of its unit in `Units`. */
  datatype Formatted = Formatted(value: Number, unitIndex: nat)
  {
    /** The unit suffix printed; `units[i]` is `undefined` past the end of the array. */
    function Unit(): string
    {
      if unitIndex < |Units| then Units[unitIndex] else "undefined"
    }
  }

  /** What the panel label shows: a fixed text, or the two scaled rates. */
  datatype LabelText = Text(s: string) | Speeds(down: Formatted, up: Formatted)

  // ---------------------------------------------------------------------
  // Reading the counter table

  /** The columns of one row: a line trimmed and split on runs of non-word characters. */
  type Row = seq<string>

  /** The columns of a line. */
  function Columns(line: string): Row
  {
    Split(Trim(line))
  }

  /** Every line of the table as its columns. */
  function Rows(lines: seq<string>): (rows: seq<Row>)
    ensures |rows| == |lines|
    ensures forall k :: 0 <= k < |lines| ==> rows[k] == Columns(lines[k])
  {
    seq(|lines|, k requires 0 <= k < |lines| => Columns(lines[k]))
  }

  /** A row with more than two columns; the scan stops at the first other row. */
  predicate IsRecord(row: Row)
  {
    |row| > 2
  }

  /** `name` begins with `prefix` immediately followed by a decimal digit. */
  predicate PrefixThenDigit(name: string, prefix: string)
  {
    if prefix == [] then name != [] && IsDigit(name[0])
    else name != [] && name[0] == prefix[0] && PrefixThenDigit(name[1..], prefix[1..])
  }

  /** The prefixes of the five name patterns the filter rejects. */
  const VirtualPrefixes: seq<string> := ["br", "tun", "tap", "vnet", "virbr"]

  /** Bridge, tunnel, tap and virtual-machine interface names. */
  predicate IsVirtualName(name: string)
  {
    PrefixThenDigit(name, "br") || PrefixThenDigit(name, "tun") || PrefixThenDigit(name, "tap")
    || PrefixThenDigit(name, "vnet") || PrefixThenDigit(name, "virbr")
  }

  /** The interface filter: not loopback, numeric column 1, not virtual. */
  predicate Contributes(row: Row)
    requires |row| >= 2
  {
    row[0] != "lo" && ParseInt(row[1]).Num? && !IsVirtualName(row[0])
  }

  /** A row the scan adds to the totals. */
  predicate Kept(row: Row)
  {
    IsRecord(row) && Contributes(row)
  }

  /** `parseInt(column[c])`; a missing column is `undefined`, which parses to NaN. */
  function ColumnValue(row: Row, c: nat): Number
  {
    if c < |row| then ParseInt(row[c]) else NaN
  }

  /** What one row adds to the bit total of column `c`. */
  function Contribution(row: Row, c: nat): Number
  {
    if Kept(row) then Mul(ColumnValue(row, c), Bit) else Num(0.0)
  }

  /** What each row adds to the bit total of column `c`. */
  function Contributions(rows: seq<Row>, c: nat): (xs: seq<Number>)
    ensures |xs| == |rows|
    ensures forall k :: 0 <= k < |rows| ==> xs[k] == Contribution(rows[k], c)
  {
    seq(|rows|, k requires 0 <= k < |rows| => Contribution(rows[k], c))
  }

  /** The sum of `xs` taken first to last, as `+=` does; a NaN anywhere makes it NaN. */
  function Sum(xs: seq<Number>): Number
  {
    if xs == [] then Num(0.0) else Add(Sum(xs[..|xs| - 1]), xs[|xs| - 1])
  }

  /** The bit total of column `c` over `rows`. */
  function Total(rows: seq<Row>, c: nat): Number
  {
    Sum(Contributions(rows, c))
  }

  // ---------------------------------------------------------------------
  // The scan

  /** The rows the scan visits: the longest prefix made of records. */
  function Scanned(rows: seq<Row>): (r: seq<Row>)
    ensures r <= rows
    ensures forall k :: 0 <= k < |r| ==> IsRecord(r[k])
    ensures |r| < |rows| ==> !IsRecord(rows[|r|])
  {
    if rows == [] || !IsRecord(rows[0]) then [] else [rows[0]] + Scanned(rows[1..])
  }

  /** Received bits counted by one tick (column 1, times 8). */
  function DownloadBits(lines: seq<string>): Number
  {
    Total(Scanned(Rows(lines)), 1)
  }

  /** Transmitted bits counted by one tick (column 9, times 8). */
  function UploadBits(lines: seq<string>): Number
  {
    Total(Scanned(Rows(lines)), 9)
  }

  /** A prefix of records ended by a non-record or by the end is exactly what the scan visits. */
  lemma ScannedIsPrefix(rows: seq<Row>, n: nat)
    requires n <= |rows|
    requires forall k :: 0 <= k < n ==> IsRecord(rows[k])
    requires n < |rows| ==> !IsRecord(rows[n])
    ensures Scanned(rows) == rows[..n]
  {
    var r := Scanned(rows);
    assert |r| == n;
  }

  /** The scan stops at the first line that is not a record: nothing after it reaches either total. */
  lemma ScanStopsAtNonRecord(lines: seq<string>, k: nat, tail: seq<string>)
    requires k < |lines| && !IsRecord(Columns(lines[k]))
    ensures Scanned(Rows(lines[..k + 1] + tail)) == Scanned(Rows(lines))
    ensures DownloadBits(lines[..k + 1] + tail) == DownloadBits(lines)
    ensures UploadBits(lines[..k + 1] + tail) == UploadBits(lines)
  {
    var rows, other := Rows(lines), Rows(lines[..k + 1] + tail);
    var n := |Scanned(rows)|;
    assert n <= k;
    assert forall j :: 0 <= j <= k ==> other[j] == rows[j];
    ScannedIsPrefix(other, n);
    assert other[..n] == rows[..n];
  }

  // ---------------------------------------------------------------------
  // The filter

  /** A line whose column 1 does not start with a digit is never counted: this drops both header lines. */
  lemma NonNumericColumnOneExcluded(row: Row)
    requires |row| > 2
    requires row[1] == [] || !IsDigit(row[1][0])
    ensures !Kept(row)
    ensures Contribution(row, 1) == Num(0.0) && Contribution(row, 9) == Num(0.0)
  {
  }

  lemma {:induction false} PrefixThenDigitHolds(prefix: string, d: char, rest: string)
    requires IsDigit(d)
    ensures PrefixThenDigit(prefix + [d] + rest, prefix)
  {
    if prefix != [] {
      assert (prefix + [d] + rest)[1..] == prefix[1..] + [d] + rest;
      PrefixThenDigitHolds(prefix[1..], d, rest);
    }
  }

  lemma {:induction false} PrefixThenDigitMeans(name: string, prefix: string)
    requires PrefixThenDigit(name, prefix)
    ensures |name| > |prefix| && name[..|prefix|] == prefix && IsDigit(name[|prefix|])
    decreases |prefix|
  {
    if prefix != [] {
      PrefixThenDigitMeans(name[1..], prefix[1..]);
      assert name[..|prefix|] == [name[0]] + name[1..][..|prefix| - 1];
    }
  }

  /** The virtual-name test is a prefix match: anything may follow the digit. */
  lemma VirtualNameIsPrefixMatch(prefix: string, d: char, rest: string)
    requires prefix in VirtualPrefixes
    requires IsDigit(d)
    ensures IsVirtualName(prefix + [d] + rest)
  {
    PrefixThenDigitHolds(prefix, d, rest);
  }

  /** A name is rejected only if it is one of the five prefixes, then a digit, then anything. */
  lemma VirtualNameIsOnlyPrefixMatch(name: string)
    requires IsVirtualName(name)
    ensures exists p, d, rest :: p in VirtualPrefixes && IsDigit(d) && name == p + [d] + rest
  {
    var p :| p in VirtualPrefixes && PrefixThenDigit(name, p);
    PrefixThenDigitMeans(name, p);
    var d, rest := name[|p|], name[|p| + 1..];
    assert name == p + [d] + rest;
  }

  /** The name test of `updateNetSpeed` (src/extension.js:39), both ways: the five anchored regular expressions, each a prefix then a digit. */
  lemma VirtualNameIff(name: string)
    ensures IsVirtualName(name) <==>
      exists p, d, rest :: p in VirtualPrefixes && IsDigit(d) && name == p + [d] + rest
  {
    if IsVirtualName(name) {
      VirtualNameIsOnlyPrefixMatch(name);
    } else if exists p, d, rest :: p in VirtualPrefixes && IsDigit(d) && name == p + [d] + rest {
      var p, d, rest :| p in VirtualPrefixes && IsDigit(d) && name == p + [d] + rest;
      VirtualNameIsPrefixMatch(p, d, rest);
      assert false;
    }
  }

  /**
   * A row is counted exactly when it has more than two columns, is not
   * loopback, its column 1 starts with a number `parseInt` reads, and its
   * name is not one of the five prefixes followed by a digit.
   */
  lemma KeptIff(row: Row)
    ensures Kept(row) <==>
      |row| > 2 && row[0] != "lo"
      && row[1] != [] && IsDigit(row[1][0]) && (HasHexPrefix(row[1]) ==> DigitRun(row[1][2..], 16) > 0)
      && !exists p, d, rest :: p in VirtualPrefixes && IsDigit(d) && row[0] == p + [d] + rest
  {
    if |row| > 2 {
      VirtualNameIff(row[0]);
    }
  }

  /** `n` spaces. */
  function Spaces(n: nat): (r: string)
    ensures |r| == n && forall i :: 0 <= i < n ==> r[i] == ' '
  {
    seq(n, _ => ' ')
  }

  /**
   * The first header line of the kernel's counter table,
   * `Inter-|   Receive` and 48 spaces before `|  Transmit`,
   * written piece by piece so that its columns can be read off.
   */
  const ReceiveHeader: string :=
    "Inter" + ("-|   " + ("Receive" + ((Spaces(48) + "|  ") + "Transmit")))

  /** The second header line, ` face |bytes    packets ... compressed`, written piece by piece. */
  const FieldHeader: string :=
    " " + ("face" + (" |" + ("bytes" + ("    " + ("packets" + FieldHeaderTail)))))

  const FieldHeaderTail: string :=
    " errs drop fifo frame compressed multicast|bytes    packets errs drop fifo colls carrier compressed"

  /** Appending keeps the last character of a non-empty tail. */
  lemma LastOfAppend(a: string, b: string)
    requires b != []
    ensures (a + b)[|a + b| - 1] == b[|b| - 1]
  {
  }

  /** A line that begins with a word and ends with a word is left alone by `trim`. */
  lemma WordLineIsTrimmed(w1: string, r1: string, w2: string, r2: string, t: string)
    requires w1 != [] && IsToken(w1) && t != [] && IsWordChar(t[|t| - 1])
    ensures Trim(w1 + (r1 + (w2 + (r2 + t)))) == w1 + (r1 + (w2 + (r2 + t)))
  {
    var line := w1 + (r1 + (w2 + (r2 + t)));
    assert line[0] == w1[0];
    LastOfAppend(r2, t);
    LastOfAppend(w2, r2 + t);
    LastOfAppend(r1, w2 + (r2 + t));
    LastOfAppend(w1, r1 + (w2 + (r2 + t)));
    TrimKeepsWordEnds(line);
  }

  /** A line made of two words and a remainder, with separator runs between them, has those words as columns 0 and 1. */
  lemma ColumnsOfWords(w1: string, r1: string, w2: string, r2: string, t: string)
    requires w1 != [] && IsToken(w1) && w2 != [] && IsToken(w2)
    requires IsSeparatorRun(r1) && IsSeparatorRun(r2)
    requires t != [] && IsWordChar(t[0]) && IsWordChar(t[|t| - 1])
    ensures Columns(w1 + (r1 + (w2 + (r2 + t)))) == [w1] + ([w2] + Split(t))
  {
    WordLineIsTrimmed(w1, r1, w2, r2, t);
    SplitTwoWords(w1, r1, w2, r2, t);
  }

  /** A line of three words with separator runs between them has exactly those three columns. */
  lemma ColumnsOfThreeWords(w1: string, r1: string, w2: string, r2: string, w3: string)
    requires w1 != [] && IsToken(w1) && w2 != [] && IsToken(w2) && w3 != [] && IsToken(w3)
    requires IsSeparatorRun(r1) && IsSeparatorRun(r2)
    ensures Columns(w1 + (r1 + (w2 + (r2 + w3)))) == [w1, w2, w3]
  {
    ColumnsOfWords(w1, r1, w2, r2, w3);
    SplitOneWord(w3);
    assert [w1] + ([w2] + [w3]) == [w1, w2, w3];
  }

  /** The first header line splits into `Inter`, `Receive` and `Transmit`. */
  lemma ReceiveHeaderColumns()
    ensures Columns(ReceiveHeader) == ["Inter", "Receive", "Transmit"]
  {
    var gap := Spaces(48) + "|  ";
    assert IsToken("Inter") && IsToken("Receive") && IsToken("Transmit");
    assert IsSeparatorRun(gap) && IsSeparatorRun("-|   ");
    ColumnsOfThreeWords("Inter", "-|   ", "Receive", gap, "Transmit");
  }

  /** The second header line, once trimmed, splits into `face`, `bytes` and more columns. */
  lemma FieldHeaderColumns()
    ensures |Columns(FieldHeader)| > 2
    ensures Columns(FieldHeader)[0] == "face" && Columns(FieldHeader)[1] == "bytes"
  {
    var rest := "packets" + FieldHeaderTail;
    assert rest[0] == 'p' && rest[|rest| - 1] == 'd';
    assert IsToken("face") && IsToken("bytes");
    assert IsSeparatorRun(" |") && IsSeparatorRun("    ");
    var t := "face" + (" |" + ("bytes" + ("    " + rest)));
    ColumnsOfWords("face", " |", "bytes", "    ", rest);
    TrimStartSkipsWhiteSpace(' ', t);
  }

  /** Neither header line is counted: column 1 is a word, which `parseInt` reads as NaN. */
  lemma HeaderLinesExcluded()
    ensures !Kept(Columns(ReceiveHeader)) && !Kept(Columns(FieldHeader))
  {
    ReceiveHeaderColumns();
    FieldHeaderColumns();
    NonNumericColumnOneExcluded(Columns(ReceiveHeader));
    NonNumericColumnOneExcluded(Columns(FieldHeader));
  }

  /**
   * A name with a non-word character inside (`br-<id>`, `eth0.100`) is split
   * in two: its second half becomes column 1, and every counter moves one
   * column to the right.
   */
  lemma SeparatorInNameShiftsColumns(a: string, sep: char, b: string, r: string, t: string)
    requires a != [] && IsToken(a) && b != [] && IsToken(b) && !IsWordChar(sep)
    requires IsSeparatorRun(r)
    requires t != [] && IsWordChar(t[0]) && IsWordChar(t[|t| - 1])
    ensures Columns(a + ([sep] + (b + (r + t)))) == [a] + ([b] + Split(t))
  {
    assert IsSeparatorRun([sep]);
    ColumnsOfWords(a, [sep], b, r, t);
  }

  /**
   * A docker bridge such as `br-1a2b`: column 0 is `br`, which no name
   * pattern matches, and column 1 is `1a2b`, which `parseInt` reads as 1. The
   * row is counted, with 1 as its received bytes, whatever its counters are.
   */
  lemma DockerBridgeIsCounted(r: string, t: string)
    requires IsSeparatorRun(r)
    requires t != [] && IsWordChar(t[0]) && IsWordChar(t[|t| - 1])
    ensures Kept(Columns("br" + ("-" + ("1a2b" + (r + t)))))
    ensures ColumnValue(Columns("br" + ("-" + ("1a2b" + (r + t)))), 1) == Num(1.0)
  {
    assert IsToken("br") && IsToken("1a2b");
    assert ParseInt("1a2b") == Num(1.0);
    assert !IsVirtualName("br");
    SeparatorInNameShiftsColumns("br", '-', "1a2b", r, t);
  }

  /** Names of bridge, tunnel, tap and virtual-machine interfaces are filtered out. */
  lemma VirtualNameExamples()
    ensures IsVirtualName("br0") && IsVirtualName("tun0") && IsVirtualName("tap3")
  {
  }

  /** Virtual-machine NICs and bridges, and a name that only starts like a bridge, are filtered out too. */
  lemma VmBridgeNameExamples()
    ensures IsVirtualName("vnet1") && IsVirtualName("virbr0") && IsVirtualName("br12x")
  {
  }

  /** Names of real interfaces, and names with no digit after the prefix, are not. */
  lemma RealNameExamples()
    ensures !IsVirtualName("eth0") && !IsVirtualName("wlan0") && !IsVirtualName("enp3s0")
    ensures !IsVirtualName("br") && !IsVirtualName("bridge0") && !IsVirtualName("lo")
  {
  }

  // ---------------------------------------------------------------------
  // The totals

  /** Adding one more row to the scan adds its contribution. */
  lemma TotalStep(rows: seq<Row>, i: nat, c: nat)
    requires i < |rows|
    ensures Total(rows[..i + 1], c) == Add(Total(rows[..i], c), Contribution(rows[i], c))
  {
    var xs := Contributions(rows[..i + 1], c);
    assert xs[..i] == Contributions(rows[..i], c);
  }

  /** Column `c` of the kept rows, in order: the values the scan adds up. */
  function KeptValues(rows: seq<Row>, c: nat): seq<Number>
  {
    if rows == [] then []
    else
      var last := rows[|rows| - 1];
      KeptValues(rows[..|rows| - 1], c) + (if Kept(last) then [ColumnValue(last, c)] else [])
  }

  /** Adding a row's contribution to a total keeps it 8 times the plain sum. */
  lemma BitsStep(sum: Number, keep: bool, v: Number)
    ensures Add(Mul(sum, Bit), if keep then Mul(v, Bit) else Num(0.0))
         == Mul(if keep then Add(sum, v) else sum, Bit)
  {
  }

  /** A bit total is 8 times the plain sum of its column over the kept rows. */
  lemma {:induction false} TotalIsBitsOfKeptSum(rows: seq<Row>, c: nat)
    ensures Total(rows, c) == Mul(Sum(KeptValues(rows, c)), Bit)
  {
    if rows != [] {
      var n := |rows| - 1;
      var init, last := rows[..n], rows[n];
      TotalIsBitsOfKeptSum(init, c);
      TotalStep(rows, n, c);
      assert rows[..n + 1] == rows;
      var ks, keep, v := KeptValues(init, c), Kept(last), ColumnValue(last, c);
      assert Contribution(last, c) == if keep then Mul(v, Bit) else Num(0.0);
      var kv := KeptValues(rows, c);
      assert Sum(kv) == if keep then Add(Sum(ks), v) else Sum(ks) by {
        if keep {
          assert kv == ks + [v];
          assert (ks + [v])[..|ks|] == ks;
        } else {
          assert kv == ks + [];
          assert ks + [] == ks;
        }
      }
      assert Total(rows, c) == Add(Total(init, c), Contribution(last, c));
      BitsStep(Sum(ks), keep, v);
    }
  }

  /** Scanning one more record adds column `c` times 8 when the filter keeps the row, and nothing otherwise. */
  lemma ScanStep(rows: seq<Row>, i: nat, c: nat)
    requires i < |rows| && IsRecord(rows[i])
    ensures Total(rows[..i + 1], c)
         == if Contributes(rows[i]) then Add(Total(rows[..i], c), Mul(ColumnValue(rows[i], c), Bit))
            else Total(rows[..i], c)
  {
    TotalStep(rows, i, c);
  }

  /** A sum of non-negative numbers is a non-negative number. */
  lemma {:induction false} SumOfCounts(xs: seq<Number>)
    requires forall k :: 0 <= k < |xs| ==> xs[k].Num? && xs[k].x >= 0.0
    ensures Sum(xs).Num? && Sum(xs).x >= 0.0
  {
    if xs != [] {
      SumOfCounts(xs[..|xs| - 1]);
    }
  }

  /** Received bits are never NaN and never negative: column 1 of a kept row always parses. */
  lemma DownloadTotalIsCount(rows: seq<Row>)
    ensures Total(rows, 1).Num? && Total(rows, 1).x >= 0.0
  {
    SumOfCounts(Contributions(rows, 1));
  }

  /** A sum is NaN exactly when one of its terms is. */
  lemma {:induction false} SumIsNaN(xs: seq<Number>)
    ensures Sum(xs) == NaN <==> exists k :: 0 <= k < |xs| && xs[k] == NaN
  {
    if xs != [] {
      var init := xs[..|xs| - 1];
      SumIsNaN(init);
      if Sum(xs) == NaN {
        if Sum(init) == NaN {
          var k :| 0 <= k < |init| && init[k] == NaN;
          assert xs[k] == init[k];
        }
      } else {
        forall k | 0 <= k < |xs|
          ensures xs[k] != NaN
        {
          if k < |init| {
            assert xs[k] == init[k];
          }
        }
      }
    }
  }

  /** A total is NaN exactly when some kept row has no number in that column. */
  lemma TotalIsNaN(rows: seq<Row>, c: nat)
    ensures Total(rows, c) == NaN <==> exists k :: 0 <= k < |rows| && Contribution(rows[k], c) == NaN
  {
    var xs := Contributions(rows, c);
    SumIsNaN(xs);
    if Total(rows, c) == NaN {
      var k :| 0 <= k < |xs| && xs[k] == NaN;
      assert Contribution(rows[k], c) == NaN;
    }
  }

  /** Taking one term out of the middle of a sum. */
  lemma {:induction false} SumWithout(a: seq<Number>, x: Number, b: seq<Number>)
    ensures Sum(a + [x] + b) == Add(Sum(a + b), x)
    decreases |b|
  {
    if b == [] {
      assert a + [x] + b == a + [x];
      assert (a + [x])[..|a|] == a;
      assert a + b == a;
    } else {
      var b' := b[..|b| - 1];
      SumWithout(a, x, b');
      assert (a + [x] + b)[..|a + [x] + b| - 1] == a + [x] + b';
      assert (a + b)[..|a + b| - 1] == a + b';
    }
  }

  /** Removing the term at `j` removes one occurrence from the multiset. */
  lemma MultisetWithout(q: seq<Number>, j: nat)
    requires j < |q|
    ensures multiset(q[..j] + q[j + 1..]) == multiset(q) - multiset{q[j]}
  {
    assert q == q[..j] + [q[j]] + q[j + 1..];
  }

  /** Removing the last term of `p` and an equal term of `q` keeps the two multisets equal. */
  lemma MultisetCancel(p: seq<Number>, q: seq<Number>, j: nat)
    requires multiset(p) == multiset(q) && p != [] && j < |q| && q[j] == p[|p| - 1]
    ensures multiset(p[..|p| - 1]) == multiset(q[..j] + q[j + 1..])
  {
    MultisetWithout(q, j);
    MultisetWithout(p, |p| - 1);
    assert p[..|p| - 1] + p[|p|..] == p[..|p| - 1];
  }

  /** The sum does not depend on the order of the terms. */
  lemma {:induction false} SumPermutation(p: seq<Number>, q: seq<Number>)
    requires multiset(p) == multiset(q)
    ensures Sum(p) == Sum(q)
    decreases |p|
  {
    if p == [] {
      assert |q| == |multiset(q)| == 0;
    } else {
      var x := p[|p| - 1];
      assert x in multiset(q);
      var j :| 0 <= j < |q| && q[j] == x;
      MultisetCancel(p, q, j);
      SumPermutation(p[..|p| - 1], q[..j] + q[j + 1..]);
      SumWithout(q[..j], x, q[j + 1..]);
      assert q[..j] + [x] + q[j + 1..] == q;
    }
  }

  /** The totals do not depend on the order in which the kept rows' contributions are added. */
  lemma TotalPermutation(p: seq<Row>, q: seq<Row>, c: nat)
    requires multiset(Contributions(p, c)) == multiset(Contributions(q, c))
    ensures Total(p, c) == Total(q, c)
  {
    SumPermutation(Contributions(p, c), Contributions(q, c));
  }

  /** `a` is a number no smaller than the number `b`. */
  predicate NotBelow(a: Number, b: Number)
  {
    a.Num? && b.Num? && a.x >= b.x
  }

  /** If no term has gone down, neither has the sum. */
  lemma {:induction false} SumMonotone(before: seq<Number>, after: seq<Number>)
    requires |before| == |after|
    requires forall k :: 0 <= k < |after| ==> NotBelow(after[k], before[k])
    ensures NotBelow(Sum(after), Sum(before))
    decreases |after|
  {
    if after != [] {
      var n := |after| - 1;
      assert forall k :: 0 <= k < n ==> after[..n][k] == after[k] && before[..n][k] == before[k];
      SumMonotone(before[..n], after[..n]);
    }
  }

  /** If no row's counter has gone down, neither has the total. */
  lemma TotalMonotone(before: seq<Row>, after: seq<Row>, c: nat)
    requires |before| == |after|
    requires forall k :: 0 <= k < |after| ==> NotBelow(Contribution(after[k], c), Contribution(before[k], c))
    ensures NotBelow(Total(after, c), Total(before, c))
  {
    SumMonotone(Contributions(before, c), Contributions(after, c));
  }

  // ---------------------------------------------------------------------
  // Rates

  /** Kbps from the bits counted now and at the last successful tick. */
  function Speed(current: Number, previous: Number): (r: Number)
    ensures r.Num? <==> current.Num? && previous.Num?
    ensures r.Num? ==> r.x * (RefreshTime * UnitBase) == current.x - previous.x
    ensures r.Num? ==> (r.x >= 0.0 <==> current.x >= previous.x)
  {
    Div(Sub(current, previous), RefreshTime * UnitBase)
  }

  /** The download rate is always a number: the received-bits total never is NaN. */
  lemma DownloadRateIsNumber(lines: seq<string>, previous: Number)
    requires previous.Num?
    ensures Speed(DownloadBits(lines), previous).Num?
  {
    DownloadTotalIsCount(Scanned(Rows(lines)));
  }

  /**
   * A counted interface row with no column 9 makes the transmitted-bits
   * total NaN, and with it the upload rate of this tick.
   */
  lemma MissingUploadColumnGivesNaN(lines: seq<string>, k: nat, previous: Number)
    requires k < |Scanned(Rows(lines))|
    requires Contributes(Scanned(Rows(lines))[k]) && |Scanned(Rows(lines))[k]| <= 9
    ensures UploadBits(lines) == NaN && Speed(UploadBits(lines), previous) == NaN
  {
    var rows := Scanned(Rows(lines));
    assert Contribution(rows[k], 9) == NaN;
    TotalIsNaN(rows, 9);
  }

  /**
   * Between two samples whose counted rows line up one for one and whose
   * counters did not go down, the rate of column `c` is a number and not negative.
   */
  lemma SpeedNonNegative(before: seq<string>, after: seq<string>, c: nat)
    requires |Scanned(Rows(before))| == |Scanned(Rows(after))|
    requires forall k :: 0 <= k < |Scanned(Rows(after))| ==>
      NotBelow(Contribution(Scanned(Rows(after))[k], c), Contribution(Scanned(Rows(before))[k], c))
    ensures AtLeast(Speed(Total(Scanned(Rows(after)), c), Total(Scanned(Rows(before)), c)), 0.0)
  {
    TotalMonotone(Scanned(Rows(before)), Scanned(Rows(after)), c);
  }

  // ---------------------------------------------------------------------
  // Unit scaling

  /** `UnitBase` to the power `k`. */
  function Pow(k: nat): (r: real)
    ensures r >= 1.0
  {
    if k == 0 then 1.0 else UnitBase * Pow(k - 1)
  }

  lemma {:induction false} PowMonotone(j: nat, k: nat)
    requires j <= k
    ensures Pow(j) <= Pow(k)
    decreases k
  {
    if j < k {
      PowMonotone(j, k - 1);
    }
  }

  /**
   * `f` is a state the scaling loop can reach from `speed`: the value times
   * `UnitBase` to the unit index gives back the input, and it is at least 1
   * once a division happened. NaN never enters the loop.
   */
  predicate Reached(speed: Number, f: Formatted)
  {
    match speed
    case NaN => f == Formatted(NaN, 0)
    case Num(x) =>
      f.value.Num? && f.value.x * Pow(f.unitIndex) == x && (f.unitIndex > 0 ==> f.value.x >= 1.0)
  }

  /** `f` is what the scaling loop leaves for `speed`: a reached state whose value is no longer at least `UnitBase`. */
  predicate Scaled(speed: Number, f: Formatted)
  {
    Reached(speed, f) && !AtLeast(f.value, UnitBase)
  }

  /** The unit index `i` of a scaled rate `x` places it in `[UnitBase^i, UnitBase^(i+1))`, or below `UnitBase` for `i == 0`. */
  lemma ScaledBracket(x: real, f: Formatted)
    requires Scaled(Num(x), f)
    ensures x < Pow(f.unitIndex + 1)
    ensures f.unitIndex > 0 ==> Pow(f.unitIndex) <= x
  {
    var v, i := f.value.x, f.unitIndex;
    var p := Pow(i);
    assert Pow(i + 1) == UnitBase * p;
    ScaleByPositive(v, UnitBase, p);
    if i > 0 {
      ScaleByPositive(1.0, v, p);
    }
  }

  /** Multiplying by a positive factor keeps the order of two reals. */
  lemma ScaleByPositive(a: real, b: real, p: real)
    requires p > 0.0
    ensures a < b ==> a * p < b * p
    ensures a <= b ==> a * p <= b * p
  {
  }

  /** The unit index is zero exactly below one unit step, and a valid index into `Units` exactly below `UnitBase^4`. */
  lemma ScaledIndex(x: real, f: Formatted)
    requires Scaled(Num(x), f)
    ensures f.unitIndex == 0 <==> x < UnitBase
    ensures f.unitIndex < |Units| <==> x < Pow(|Units|)
    ensures x < 0.0 ==> f == Formatted(Num(x), 0)
  {
    var i := f.unitIndex;
    ScaledBracket(x, f);
    if i > 0 {
      PowMonotone(1, i);
    }
    if i < |Units| {
      PowMonotone(i + 1, |Units|);
    } else {
      PowMonotone(|Units|, i);
    }
  }

  lemma CancelFactor(a: real, b: real, p: real)
    requires p > 0.0 && a * p == b * p
    ensures a == b
  {
  }

  /** The scaled form of a rate is unique. */
  lemma ScaledUnique(speed: Number, f: Formatted, g: Formatted)
    requires Scaled(speed, f) && Scaled(speed, g)
    ensures f == g
  {
    if speed.Num? {
      var x := speed.x;
      ScaledBracket(x, f);
      ScaledBracket(x, g);
      if f.unitIndex < g.unitIndex {
        PowMonotone(f.unitIndex + 1, g.unitIndex);
      } else if g.unitIndex < f.unitIndex {
        PowMonotone(g.unitIndex + 1, f.unitIndex);
      }
      CancelFactor(f.value.x, g.value.x, Pow(f.unitIndex));
    }
  }

  /** A rate of exactly one unit step is shown as 1 of the next unit, never as 1024 of the first. */
  lemma ScaledOneStep(f: Formatted)
    requires Scaled(Num(UnitBase), f)
    ensures f == Formatted(Num(1.0), 1)
  {
    ScaledUnique(Num(UnitBase), f, Formatted(Num(1.0), 1));
  }

  /** There is no clamp: the unit printed is `undefined` exactly when the rate reaches `UnitBase^4` Kbps. */
  lemma UnitUndefinedPastTbps(x: real, f: Formatted)
    requires Scaled(Num(x), f)
    ensures f.Unit() == "undefined" <==> x >= Pow(|Units|)
  {
    ScaledIndex(x, f);
  }

  /** One pass of the scaling loop keeps value times `UnitBase` to the index, and shrinks the value. */
  lemma DivideStep(v: real, i: nat)
    requires v >= UnitBase
    ensures (v / UnitBase) * Pow(i + 1) == v * Pow(i)
    ensures 1.0 <= v / UnitBase <= v - 1.0
    ensures (v / UnitBase).Floor < v.Floor
  {
    var p := Pow(i);
    assert Pow(i + 1) == UnitBase * p;
    assert (v / UnitBase) * (UnitBase * p) == v * p;
  }

  /** A pass of the loop from a reached state reaches another one, with a smaller non-negative value. */
  lemma ReachedStep(speed: Number, s: Number, i: nat)
    requires Reached(speed, Formatted(s, i)) && AtLeast(s, UnitBase)
    ensures Reached(speed, Formatted(Div(s, UnitBase), i + 1))
    ensures 0.0 <= Div(s, UnitBase).x && Div(s, UnitBase).x.Floor < s.x.Floor
  {
    DivideStep(s.x, i);
  }

  /** `getFormattedSpeed`: divides by `UnitBase` while the value is at least `UnitBase`, counting the steps. */
  method GetFormattedSpeed(speed: Number) returns (f: Formatted)
    ensures Scaled(speed, f)
  {
    var s := speed;
    var i: nat := 0;
    while AtLeast(s, UnitBase)
      invariant Reached(speed, Formatted(s, i))
      decreases if s.Num? && s.x >= 0.0 then s.x.Floor else 0
    {
      ReachedStep(speed, s, i);
      s := Div(s, UnitBase);
      i := i + 1;
    }
    f := Formatted(s, i);
  }

  /**
   * The scan of one tick: rows are read in order up to the first one with at
   * most two columns, and columns 9 and 1 of every kept row are added, times 8.
   */
  method SumCounters(lines: seq<string>) returns (uploadBits: Number, downloadBits: Number)
    ensures uploadBits == UploadBits(lines) && downloadBits == DownloadBits(lines)
  {
    ghost var rows := Rows(lines);
    uploadBits := Num(0.0);
    downloadBits := Num(0.0);
    var i := 0;
    while i < |lines|
      invariant 0 <= i <= |lines|
      invariant i <= |Scanned(rows)|
      invariant uploadBits == Total(rows[..i], 9)
      invariant downloadBits == Total(rows[..i], 1)
    {
      var column := Split(Trim(lines[i]));
      assert column == rows[i];
      if |column| <= 2 {
        break;
      }
      assert IsRecord(rows[i]);
      assert i < |Scanned(rows)|;
      ScanStep(rows, i, 9);
      ScanStep(rows, i, 1);
      if Contributes(column) {
        uploadBits := Add(uploadBits, Mul(ColumnValue(column, 9), Bit));
        downloadBits := Add(downloadBits, Mul(ColumnValue(column, 1), Bit));
      }
      i := i + 1;
    }
    assert |Scanned(rows)| == i;
    assert Scanned(rows) == rows[..i];
  }

  // ---------------------------------------------------------------------
  // The widget state

  /** The module-level state of the extension: the counters of the last successful tick and the panel label. */
  class NetSpeedMonitor {
    var prevUploadBits: Number
    var prevDownloadBits: Number
    /** The panel label and its text; `None` when no label exists. */
    var netSpeedLabel: Option<LabelText>

    /** The received-bits counter is always a number. */
    ghost predicate Valid()
      reads this
    {
      prevDownloadBits.Num? && prevDownloadBits.x >= 0.0
    }

    /** Module load, with or without the label that `enable` creates. */
    constructor (hasLabel: bool)
      ensures Valid()
      ensures prevUploadBits == Num(0.0) && prevDownloadBits == Num(0.0)
      ensures netSpeedLabel == if hasLabel then Some(Text(DefaultNetSpeedText)) else None
    {
      prevUploadBits := Num(0.0);
      prevDownloadBits := Num(0.0);
      netSpeedLabel := if hasLabel then Some(Text(DefaultNetSpeedText)) else None;
    }

    /** One tick; the result tells the timer whether to keep running. */
    method UpdateNetSpeed(file: FileRead) returns (keepRunning: bool)
      requires Valid()
      modifies this
      ensures Valid()
      ensures old(netSpeedLabel) == None ==>
        !keepRunning && netSpeedLabel == None
        && prevUploadBits == old(prevUploadBits) && prevDownloadBits == old(prevDownloadBits)
      ensures old(netSpeedLabel) != None && file == ReadFailed ==>
        !keepRunning && netSpeedLabel == Some(Text(DefaultNetSpeedText))
        && prevUploadBits == old(prevUploadBits) && prevDownloadBits == old(prevDownloadBits)
      ensures old(netSpeedLabel) != None && file.Contents? ==>
        keepRunning
        && prevUploadBits == UploadBits(file.lines) && prevDownloadBits == DownloadBits(file.lines)
        && netSpeedLabel.Some? && netSpeedLabel.value.Speeds?
        && Scaled(Speed(DownloadBits(file.lines), old(prevDownloadBits)), netSpeedLabel.value.down)
        && Scaled(Speed(UploadBits(file.lines), old(prevUploadBits)), netSpeedLabel.value.up)
    {
      if netSpeedLabel == None {
        return false;
      }
      if file == ReadFailed {
        netSpeedLabel := Some(Text(DefaultNetSpeedText));
        return false;
      }
      var uploadBits, downloadBits := SumCounters(file.lines);
      DownloadTotalIsCount(Scanned(Rows(file.lines)));

      var uploadSpeed := Speed(uploadBits, prevUploadBits);
      var downloadSpeed := Speed(downloadBits, prevDownloadBits);
      var down := GetFormattedSpeed(downloadSpeed);
      var up := GetFormattedSpeed(uploadSpeed);
      netSpeedLabel := Some(Speeds(down, up));

      prevUploadBits := uploadBits;
      prevDownloadBits := downloadBits;
      return true;
    }
  }
}
