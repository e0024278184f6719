/** The run-file decoder of the text interface. Every line of the run file
    holds one integer; each group of four lines, in file order, describes
    one animation run: the algorithm code, the row count, the column count
    and the frame delay. Decoding is all-or-nothing: one line that does not
    parse, a line count that is not a multiple of four, an unknown
    algorithm code or a size out of range discards every run. The file is
    given as its lines; opening and reading it are not modelled. */
module RunFile {
  import Grid
  import Solver

  datatype Option<T> = None | Some(value: T)

  /** `MazeSolver::Algorithm`. */
  datatype Algorithm = RecursiveBacktrack | GrowingTree | Ellers | RecursiveDivision

  /** `RunInfo`: the generator, the maze size as (rows, cols) and the delay
      between animation frames. */
  datatype RunInfo = RunInfo(algo: Algorithm, mazeSize: Grid.Vector2u, delay: int)

  /** The range of a 32-bit `int`. */
  const IntMin: int := -0x8000_0000
  const IntMax: int := 0x7fff_ffff

  predicate IsInt(x: int)
  {
    IntMin <= x <= IntMax
  }

  /** `isspace` in the "C" locale: space, tab, line feed, vertical tab,
      form feed and carriage return. */
  predicate IsSpace(c: char)
  {
    c == ' ' || '\t' <= c <= '\r'
  }

  predicate IsDigit(c: char)
  {
    '0' <= c <= '9'
  }

  predicate AllDigits(s: string)
  {
    forall k | 0 <= k < |s| :: IsDigit(s[k])
  }

  /** `s` without its leading white space. */
  function SkipSpace(s: string): (t: string)
    ensures |t| <= |s|
  {
    if |s| > 0 && IsSpace(s[0]) then SkipSpace(s[1..]) else s
  }

  /** What `SkipSpace` leaves is a suffix of `s` that does not start with
      white space, and all it drops is white space. */
  lemma {:induction false} SkipSpaceSuffix(s: string)
    ensures SkipSpace(s) == s[|s| - |SkipSpace(s)|..]
    ensures |SkipSpace(s)| > 0 ==> !IsSpace(SkipSpace(s)[0])
    ensures forall k | 0 <= k < |s| - |SkipSpace(s)| :: IsSpace(s[k])
  {
    if |s| > 0 && IsSpace(s[0]) {
      SkipSpaceSuffix(s[1..]);
      assert s[1..][|s| - 1 - |SkipSpace(s)|..] == s[|s| - |SkipSpace(s)|..];
      forall k | 1 <= k < |s| - |SkipSpace(s)| ensures IsSpace(s[k]) {
        assert s[k] == s[1..][k - 1];
      }
    }
  }

  /** The number of decimal digits `s` starts with. */
  function DigitCount(s: string): (n: nat)
    ensures n <= |s|
  {
    if |s| > 0 && IsDigit(s[0]) then 1 + DigitCount(s[1..]) else 0
  }

  /** The value of a string of decimal digits, most significant first. */
  function Number(ds: string): int
  {
    if |ds| == 0 then 0 else 10 * Number(ds[..|ds| - 1]) + (ds[|ds| - 1] as int - '0' as int)
  }

  /** The digits `u` starts with, as a number; `None` if there are none. */
  function Unsigned(u: string): Option<int>
  {
    var n := DigitCount(u);
    if n == 0 then None else Some(Number(u[..n]))
  }

  /** An optional sign, then the digits `Unsigned` reads. */
  function Signed(t: string): Option<int>
  {
    if |t| > 0 && (t[0] == '-' || t[0] == '+') then
      match Unsigned(t[1..])
      case None => None
      case Some(v) => Some(if t[0] == '-' then -v else v)
    else
      match Unsigned(t)
      case None => None
      case Some(v) => Some(v)
  }

  /** `std::stoi` in base 10, reading as `strtol` does (section 7.22.1.4 of
      the C11 standard): leading white space is skipped, an optional sign
      is taken, then as many digits as follow, at least one; whatever comes
      after them is ignored. `None` stands for the `std::invalid_argument`
      that `stoi` throws when there is no digit to read. The value is not
      bounded here; `NoOverflow` states when it fits an `int`. */
  function ParseInt(s: string): Option<int>
  {
    Signed(SkipSpace(s))
  }

  /** The decimal digit for `d`. */
  function DigitChar(d: int): char
    requires 0 <= d < 10
  {
    ('0' as int + d) as char
  }

  /** The decimal text of a natural number, without leading zeros. */
  function ShowNat(n: nat): string
  {
    if n < 10 then [DigitChar(n)] else ShowNat(n / 10) + [DigitChar(n % 10)]
  }

  /** The decimal text of an integer, with a `-` for a negative one: one
      line of the run file. */
  function ShowInt(i: int): string
  {
    if i < 0 then "-" + ShowNat(-i) else ShowNat(i)
  }

  /** The text of a number is a non-empty run of digits that reads back as
      that number. */
  lemma {:induction false} ShowNatReads(n: nat)
    ensures |ShowNat(n)| >= 1 && AllDigits(ShowNat(n))
    ensures Number(ShowNat(n)) == n
  {
    if n >= 10 {
      ShowNatReads(n / 10);
      var s := ShowNat(n);
      assert s[..|s| - 1] == ShowNat(n / 10);
    }
  }

  /** The digits of a run followed by a non-digit (or by nothing) are the
      whole run. */
  lemma DigitCountOf(ds: string, rest: string)
    requires AllDigits(ds) && (rest == [] || !IsDigit(rest[0]))
    ensures DigitCount(ds + rest) == |ds|
  {
    if |ds| > 0 {
      assert (ds + rest)[1..] == ds[1..] + rest;
      DigitCountOf(ds[1..], rest);
    } else {
      assert ds + rest == rest;
    }
  }

  /** `ParseInt` reads back what `ShowInt` writes, whatever follows that
      is not a digit. */
  lemma ParseShown(i: int, rest: string)
    requires rest == [] || !IsDigit(rest[0])
    ensures ParseInt(ShowInt(i) + rest) == Some(i)
  {
    if i < 0 {
      ParseShownNegative(-i, rest);
    } else {
      ParseShownNat(i, rest);
    }
  }

  lemma ParseShownNegative(m: nat, rest: string)
    requires m > 0 && (rest == [] || !IsDigit(rest[0]))
    ensures ParseInt(ShowInt(-(m as int)) + rest) == Some(-(m as int))
  {
    UnsignedShown(m, rest);
    var u := ShowNat(m) + rest;
    assert ShowInt(-(m as int)) + rest == "-" + u;
    SignedNegative(u, m);
  }

  lemma ParseShownNat(m: nat, rest: string)
    requires rest == [] || !IsDigit(rest[0])
    ensures ParseInt(ShowInt(m) + rest) == Some(m)
  {
    UnsignedShown(m, rest);
    ShowNatReads(m);
    var u := ShowNat(m) + rest;
    assert ShowInt(m) + rest == u;
    assert u[0] == ShowNat(m)[0];
    SignedDigits(u, m);
  }

  /** A minus sign in front of digits that read as `m`. */
  lemma SignedNegative(u: string, m: nat)
    requires Unsigned(u) == Some(m)
    ensures ParseInt("-" + u) == Some(-(m as int))
  {
    assert ("-" + u)[1..] == u;
    assert SkipSpace("-" + u) == "-" + u;
  }

  /** Digits with no sign in front that read as `m`. */
  lemma SignedDigits(u: string, m: nat)
    requires |u| > 0 && IsDigit(u[0]) && Unsigned(u) == Some(m)
    ensures ParseInt(u) == Some(m)
  {
    assert !IsSpace(u[0]) && u[0] != '-' && u[0] != '+';
    assert SkipSpace(u) == u;
    assert Signed(u) == Some(m);
  }

  /** The digits of a number's text, and only those, are read. */
  lemma UnsignedShown(m: nat, rest: string)
    requires rest == [] || !IsDigit(rest[0])
    ensures Unsigned(ShowNat(m) + rest) == Some(m)
  {
    ShowNatReads(m);
    DigitCountOf(ShowNat(m), rest);
    assert (ShowNat(m) + rest)[..|ShowNat(m)|] == ShowNat(m);
  }

  /** Leading white space does not change what `ParseInt` reads. */
  lemma {:induction false} ParseSkipsSpace(w: string, s: string)
    requires forall k | 0 <= k < |w| :: IsSpace(w[k])
    ensures ParseInt(w + s) == ParseInt(s)
  {
    SkipSpaceOf(w, s);
  }

  lemma {:induction false} SkipSpaceOf(w: string, s: string)
    requires forall k | 0 <= k < |w| :: IsSpace(w[k])
    ensures SkipSpace(w + s) == SkipSpace(s)
  {
    if |w| > 0 {
      assert (w + s)[1..] == w[1..] + s;
      SkipSpaceOf(w[1..], s);
    } else {
      assert w + s == s;
    }
  }

  /** A line with no digit at all is rejected. */
  lemma ParseNeedsDigit(s: string)
    requires forall k | 0 <= k < |s| :: !IsDigit(s[k])
    ensures ParseInt(s) == None
  {
    SkipSpaceSuffix(s);
    var t := SkipSpace(s);
    if |t| > 1 {
      assert t[1..][0] == s[|s| - |t| + 1];
    }
    if |t| > 0 {
      assert t[0] == s[|s| - |t|];
    }
  }

  /** What `std::stoi` makes of each line. */
  function Parsed(ls: seq<string>): (ps: seq<Option<int>>)
    ensures |ps| == |ls|
  {
    seq(|ls|, k requires 0 <= k < |ls| => ParseInt(ls[k]))
  }

  /** The first `k` lines parse. */
  predicate ParsesUpTo(ps: seq<Option<int>>, k: int)
    requires 0 <= k <= |ps|
  {
    forall j | 0 <= j < k :: ps[j].Some?
  }

  predicate AllParse(ps: seq<Option<int>>)
  {
    ParsesUpTo(ps, |ps|)
  }

  /** No line that `getLines` reaches reads as a value outside `int`: the
      reading stops at the first line that does not parse, and a line
      before it whose value is out of range would make `std::stoi` throw
      `std::out_of_range`, which nothing catches. */
  predicate NoOverflow(ps: seq<Option<int>>)
  {
    forall k | 0 <= k < |ps| :: FitsIfRead(ps, k)
  }

  /** Line `k`, if it is read and parses, fits an `int`. */
  predicate FitsIfRead(ps: seq<Option<int>>, k: int)
    requires 0 <= k < |ps|
  {
    ParsesUpTo(ps, k) && ps[k].Some? ==> IsInt(ps[k].value)
  }

  /** The values of the lines, in file order. */
  function Values(ps: seq<Option<int>>): (vs: seq<int>)
    requires AllParse(ps)
    ensures |vs| == |ps|
  {
    seq(|ps|, k requires 0 <= k < |ps| => ps[k].value)
  }

  /** What `getLines` collects, before reversing: every value, or nothing
      at all if a line fails to parse. */
  function FileValues(ls: seq<string>): seq<int>
  {
    var ps := Parsed(ls);
    if AllParse(ps) then Values(ps) else []
  }

  /** The collection is all-or-nothing: one line that does not parse
      empties it, and otherwise it holds the value of every line in file
      order. */
  lemma FileValuesRead(ls: seq<string>)
    ensures (exists k | 0 <= k < |ls| :: ParseInt(ls[k]).None?) ==> FileValues(ls) == []
    ensures (forall k | 0 <= k < |ls| :: ParseInt(ls[k]).Some?) ==>
              |FileValues(ls)| == |ls| && forall k | 0 <= k < |ls| :: ParseInt(ls[k]) == Some(FileValues(ls)[k])
  {
  }

  /** `s` back to front. */
  function Reversed(s: seq<int>): (r: seq<int>)
    ensures |r| == |s|
  {
    seq(|s|, k requires 0 <= k < |s| => s[|s| - 1 - k])
  }

  /** Reversing twice gives the sequence back. */
  lemma ReversedTwice(s: seq<int>)
    ensures Reversed(Reversed(s)) == s
  {
    var r := Reversed(Reversed(s));
    forall k | 0 <= k < |s| ensures r[k] == s[k] {
      assert r[k] == Reversed(s)[|s| - 1 - k];
    }
  }

  /** `std::reverse` over the whole vector. */
  method ReverseInPlace(a: array<int>)
    modifies a
    ensures a[..] == Reversed(old(a[..]))
  {
    var n := a.Length;
    var i := 0;
    while i < n / 2
      invariant 0 <= i <= n / 2
      invariant forall k | 0 <= k < i :: a[k] == old(a[n - 1 - k]) && a[n - 1 - k] == old(a[k])
      invariant forall k | i <= k < n - i :: a[k] == old(a[k])
    {
      a[i], a[n - 1 - i] := a[n - 1 - i], a[i];
      i := i + 1;
    }
  }

  /** The reading loop of `getLines`: every line read with `std::stoi`
      and pushed, in file order; the first line that fails to parse ends
      the reading with nothing collected. */
  method ReadValues(ls: seq<string>) returns (lines: seq<int>)
    requires NoOverflow(Parsed(ls))
    ensures lines == FileValues(ls)
    ensures forall k | 0 <= k < |lines| :: IsInt(lines[k])
  {
    ghost var ps := Parsed(ls);
    lines := [];
    var k := 0;
    while k < |ls|
      invariant 0 <= k <= |ls| && |lines| == k && ParsesUpTo(ps, k)
      invariant forall j | 0 <= j < k :: ps[j] == Some(lines[j]) && IsInt(lines[j])
    {
      var v := ParseInt(ls[k]);
      assert v == ps[k] && FitsIfRead(ps, k);
      if v.None? {
        return [];
      }
      lines := lines + [v.value];
      k := k + 1;
    }
    assert lines == Values(ps);
  }

  /** `getLines`: the values read from the lines, reversed in place so
      that the first line's value is at the back. */
  method GetLines(ls: seq<string>) returns (r: seq<int>)
    requires NoOverflow(Parsed(ls))
    ensures r == Reversed(FileValues(ls))
    ensures forall k | 0 <= k < |r| :: IsInt(r[k])
  {
    var lines := ReadValues(ls);
    var a := new int[|lines|](i => if 0 <= i < |lines| then lines[i] else 0);
    assert a[..] == lines;
    ReverseInPlace(a);
    r := a[..];
  }

  /** The algorithm codes of the run file, 1 to 4. */
  function AlgorithmOf(code: int): (r: Option<Algorithm>)
    ensures r.Some? <==> 1 <= code <= 4
  {
    if code == 1 then Some(RecursiveBacktrack)
    else if code == 2 then Some(GrowingTree)
    else if code == 3 then Some(Ellers)
    else if code == 4 then Some(RecursiveDivision)
    else None
  }

  /** The code written for an algorithm. */
  function CodeOf(a: Algorithm): int
  {
    match a
    case RecursiveBacktrack => 1
    case GrowingTree => 2
    case Ellers => 3
    case RecursiveDivision => 4
  }

  /** The code table is one-to-one, in both directions. */
  lemma AlgorithmCodes(code: int, a: Algorithm)
    ensures AlgorithmOf(code) == Some(a) <==> CodeOf(a) == code
  {
  }

  /** A size the decoder accepts, 3 to 60 cells on each side. */
  predicate SizeOk(rows: int, cols: int)
  {
    3 <= rows <= 60 && 3 <= cols <= 60
  }

  /** One group of four values (code, rows, cols, delay). Rows and cols are
      converted to `unsigned int` before the range test, so a negative
      value becomes a large one and is rejected too; the delay is taken as
      it is. */
  function DecodeRun(code: int, rows: int, cols: int, delay: int): Option<RunInfo>
  {
    match AlgorithmOf(code)
    case None => None
    case Some(a) =>
      var r, c := Solver.ToU32(rows), Solver.ToU32(cols);
      if SizeOk(r, c) then Some(RunInfo(a, Grid.Vector2u(r, c), delay)) else None
  }

  /** `rs` in front of the runs of `o`, or nothing if `o` was rejected. */
  function Prepend(rs: seq<RunInfo>, o: Option<seq<RunInfo>>): Option<seq<RunInfo>>
  {
    match o
    case None => None
    case Some(xs) => Some(rs + xs)
  }

  /** The runs of a list of values in file order; `None` when the count is
      not a multiple of four or a group is rejected. */
  function Decode(vals: seq<int>): Option<seq<RunInfo>>
    decreases |vals|
  {
    if |vals| == 0 then Some([])
    else if |vals| < 4 then None
    else match DecodeRun(vals[0], vals[1], vals[2], vals[3])
      case None => None
      case Some(run) => Prepend([run], Decode(vals[4..]))
  }

  /** What `loadRunsFromFile` returns for the lines of a file: the decoded
      runs, or no run at all. */
  function DecodeFile(ls: seq<string>): seq<RunInfo>
  {
    DecodeOrEmpty(FileValues(ls))
  }

  /** The runs of `vals`, or none if they are rejected. */
  function DecodeOrEmpty(vals: seq<int>): seq<RunInfo>
  {
    match Decode(vals)
    case None => []
    case Some(rs) => rs
  }

  /** Group `k` of `vals`, the values `4 * k` to `4 * k + 3`, decoded. */
  function Group(vals: seq<int>, k: nat): Option<RunInfo>
    requires 4 * k + 3 < |vals|
  {
    DecodeRun(vals[4 * k], vals[4 * k + 1], vals[4 * k + 2], vals[4 * k + 3])
  }

  /** Group `k` of `vals`, for every `k`, decodes to run `rs[k]`. */
  predicate Grouped(vals: seq<int>, rs: seq<RunInfo>)
  {
    |vals| == 4 * |rs| && forall k: nat | k < |rs| :: Group(vals, k) == Some(rs[k])
  }

  /** The groups after the first are the groups of the tail. */
  lemma GroupShift(vals: seq<int>, k: nat)
    requires 4 * k + 7 < |vals|
    ensures Group(vals[4..], k) == Group(vals, k + 1)
  {
  }

  /** `Decode` accepts exactly the lists whose every group of four decodes,
      and returns those groups' runs in order. */
  lemma DecodeGroups(vals: seq<int>, rs: seq<RunInfo>)
    ensures Decode(vals) == Some(rs) <==> Grouped(vals, rs)
  {
    if Decode(vals) == Some(rs) {
      DecodedGrouped(vals, rs);
    }
    if Grouped(vals, rs) {
      GroupedDecoded(vals, rs);
    }
  }

  lemma {:induction false} DecodedGrouped(vals: seq<int>, rs: seq<RunInfo>)
    requires Decode(vals) == Some(rs)
    decreases |vals|
    ensures Grouped(vals, rs)
  {
    if |vals| > 0 {
      var tail := vals[4..];
      assert Decode(tail) == Some(rs[1..]);
      DecodedGrouped(tail, rs[1..]);
      forall k: nat | k < |rs| ensures Group(vals, k) == Some(rs[k]) {
        if k > 0 {
          GroupShift(vals, k - 1);
          assert Group(tail, k - 1) == Some(rs[1..][k - 1]);
        }
      }
    }
  }

  lemma {:induction false} GroupedDecoded(vals: seq<int>, rs: seq<RunInfo>)
    requires Grouped(vals, rs)
    decreases |vals|
    ensures Decode(vals) == Some(rs)
  {
    if |vals| > 0 {
      var tail := vals[4..];
      assert Grouped(tail, rs[1..]) by {
        forall k: nat | k < |rs| - 1 ensures Group(tail, k) == Some(rs[1..][k]) {
          GroupShift(vals, k);
        }
      }
      GroupedDecoded(tail, rs[1..]);
      assert Group(vals, 0) == Some(rs[0]);
      assert rs == [rs[0]] + rs[1..];
    }
  }

  /** The four integers written for a run. */
  function Encode(runs: seq<RunInfo>): (vals: seq<int>)
    ensures |vals| == 4 * |runs|
  {
    if |runs| == 0 then []
    else [CodeOf(runs[0].algo), runs[0].mazeSize.x, runs[0].mazeSize.y, runs[0].delay] + Encode(runs[1..])
  }

  /** A run that the decoder can produce. */
  predicate Writable(run: RunInfo)
  {
    SizeOk(run.mazeSize.x, run.mazeSize.y) && IsInt(run.delay)
  }

  /** Decoding the values written for runs it can produce gives those runs. */
  lemma {:induction false} DecodeEncode(runs: seq<RunInfo>)
    requires forall k | 0 <= k < |runs| :: Writable(runs[k])
    ensures Decode(Encode(runs)) == Some(runs)
  {
    if |runs| > 0 {
      DecodeEncode(runs[1..]);
      AlgorithmCodes(CodeOf(runs[0].algo), runs[0].algo);
      assert Encode(runs)[4..] == Encode(runs[1..]);
      assert runs == [runs[0]] + runs[1..];
    }
  }

  /** An `int` whose `unsigned int` conversion is a valid size is that size. */
  lemma SizeOfInt(x: int)
    requires IsInt(x) && 3 <= Solver.ToU32(x) <= 60
    ensures Solver.ToU32(x) == x
  {
  }

  /** Every list of `int`s that decodes is the list written for its runs,
      and those runs are all ones the decoder can produce. */
  lemma {:induction false} EncodeDecode(vals: seq<int>, rs: seq<RunInfo>)
    requires forall k | 0 <= k < |vals| :: IsInt(vals[k])
    requires Decode(vals) == Some(rs)
    decreases |vals|
    ensures Encode(rs) == vals
    ensures forall k | 0 <= k < |rs| :: Writable(rs[k])
  {
    if |vals| > 0 {
      var run := DecodeRun(vals[0], vals[1], vals[2], vals[3]).value;
      var tail := Decode(vals[4..]).value;
      assert rs == [run] + tail;
      EncodeDecode(vals[4..], tail);
      AlgorithmCodes(vals[0], run.algo);
      SizeOfInt(vals[1]);
      SizeOfInt(vals[2]);
      assert rs[1..] == tail;
      assert vals == vals[..4] + vals[4..];
    }
  }

  /** A group count that is not whole is rejected. */
  lemma {:induction false} DecodeWhole(vals: seq<int>)
    requires |vals| % 4 != 0
    decreases |vals|
    ensures Decode(vals) == None
  {
    if |vals| >= 4 {
      DecodeWhole(vals[4..]);
    }
  }

  /** The lines of a run file holding `runs`. */
  function Lines(vals: seq<int>): (ls: seq<string>)
    ensures |ls| == |vals|
  {
    seq(|vals|, k requires 0 <= k < |vals| => ShowInt(vals[k]))
  }

  /** Every line written for a value reads back as that value. */
  lemma LinesRead(vals: seq<int>)
    ensures forall k | 0 <= k < |vals| :: ParseInt(Lines(vals)[k]) == Some(vals[k])
  {
    forall k | 0 <= k < |vals| ensures ParseInt(Lines(vals)[k]) == Some(vals[k]) {
      ParseShown(vals[k], []);
      assert ShowInt(vals[k]) + [] == ShowInt(vals[k]);
    }
  }

  /** The lines written for a list of `int`s all parse, fit an `int`, and
      give that list back. */
  lemma LinesValues(vals: seq<int>)
    requires forall k | 0 <= k < |vals| :: IsInt(vals[k])
    ensures NoOverflow(Parsed(Lines(vals)))
    ensures FileValues(Lines(vals)) == vals
  {
    LinesRead(vals);
  }

  /** A file written from runs the decoder can produce is loaded as those
      runs. */
  lemma FileRoundTrip(runs: seq<RunInfo>)
    requires forall k | 0 <= k < |runs| :: Writable(runs[k])
    ensures NoOverflow(Parsed(Lines(Encode(runs))))
    ensures DecodeFile(Lines(Encode(runs))) == runs
  {
    EncodeInts(runs);
    LinesValues(Encode(runs));
    DecodeEncode(runs);
  }

  lemma {:induction false} EncodeInts(runs: seq<RunInfo>)
    requires forall k | 0 <= k < |runs| :: Writable(runs[k])
    ensures forall k | 0 <= k < |Encode(runs)| :: IsInt(Encode(runs)[k])
  {
    if |runs| > 0 {
      EncodeInts(runs[1..]);
      var e := Encode(runs);
      forall k | 4 <= k < |e| ensures e[k] == Encode(runs[1..])[k - 4] {
      }
    }
  }

  /** Dropping the first `m` elements of a list drops the last `m` of its
      reverse. */
  lemma ReversedDrop(s: seq<int>, m: nat)
    requires m <= |s|
    ensures Reversed(s)[..|s| - m] == Reversed(s[m..])
  {
    var a, b := Reversed(s)[..|s| - m], Reversed(s[m..]);
    forall k | 0 <= k < |s| - m ensures a[k] == b[k] {
    }
  }

  /** The four values at the back of the reversed list are the first group
      of `rest`, and once they are popped the reverse of the rest of it is
      left. */
  lemma PopGroup(rest: seq<int>, lines: seq<int>)
    requires lines == Reversed(rest) && |rest| % 4 == 0 && |rest| > 0
    ensures var n := |lines|;
      n >= 4 && lines[n - 1] == rest[0] && lines[n - 2] == rest[1] && lines[n - 3] == rest[2] && lines[n - 4] == rest[3] &&
      |rest[4..]| % 4 == 0 && lines[..n - 4] == Reversed(rest[4..])
  {
    ReversedDrop(rest, 4);
  }

  lemma TakeTake(s: seq<int>, i: int, j: int)
    requires 0 <= j <= i <= |s|
    ensures s[..i][..j] == s[..j]
  {
  }

  /** One more accepted group extends the decoded front by its run. */
  lemma PrependRun(vals: seq<int>, rest: seq<int>, runs: seq<RunInfo>, run: RunInfo)
    requires |rest| >= 4 && DecodeRun(rest[0], rest[1], rest[2], rest[3]) == Some(run)
    requires Decode(vals) == Prepend(runs, Decode(rest))
    ensures Decode(vals) == Prepend(runs + [run], Decode(rest[4..]))
  {
    assert Decode(rest) == Prepend([run], Decode(rest[4..]));
    match Decode(rest[4..])
    case None =>
    case Some(xs) =>
      assert runs + ([run] + xs) == (runs + [run]) + xs;
  }

  /** A rejected group rejects the whole list. */
  lemma RejectRun(vals: seq<int>, rest: seq<int>, runs: seq<RunInfo>)
    requires |rest| >= 4 && DecodeRun(rest[0], rest[1], rest[2], rest[3]) == None
    requires Decode(vals) == Prepend(runs, Decode(rest))
    ensures Decode(vals) == None
  {
  }

  /** A file that loads any run has one run per four lines. */
  lemma FileAccepted(ls: seq<string>, runs: seq<RunInfo>)
    requires runs == DecodeFile(ls)
    ensures runs == [] || |ls| == 4 * |runs|
  {
    if runs != [] {
      DecodeGroups(FileValues(ls), runs);
    }
  }

  /** One pass of the decoding loop of `loadRunsFromFile`: the algorithm
      code, the rows, the cols and the delay are popped from the back of
      `lines` in that order; the record is rejected on an unknown code or
      on a size out of range, and the load then stops. */
  method ReadRecord(lines: seq<int>) returns (record: Option<RunInfo>, left: seq<int>)
    requires |lines| >= 4
    ensures var n := |lines|; record == DecodeRun(lines[n - 1], lines[n - 2], lines[n - 3], lines[n - 4])
    ensures record.Some? ==> left == lines[..|lines| - 4]
  {
    left := lines;
    var algo := left[|left| - 1];
    left := left[..|left| - 1];
    var algoType := AlgorithmOf(algo);
    if algoType.None? {
      return None, left;
    }
    TakeTake(lines, |lines| - 1, |lines| - 2);
    var rows := Solver.ToU32(left[|left| - 1]);
    left := left[..|left| - 1];
    TakeTake(lines, |lines| - 2, |lines| - 3);
    var cols := Solver.ToU32(left[|left| - 1]);
    left := left[..|left| - 1];
    if rows < 3 || cols < 3 || rows > 60 || cols > 60 {
      return None, left;
    }
    TakeTake(lines, |lines| - 3, |lines| - 4);
    var delay := left[|left| - 1];
    left := left[..|left| - 1];
    record := Some(RunInfo(algoType.value, Grid.Vector2u(rows, cols), delay));
  }

  /** The decoding loop of `loadRunsFromFile`, on the reversed value list
      that `getLines` returns: records are popped from its back, so in file
      order; a rejected record ends the load with no run at all, including
      those already decoded. */
  method DecodeStack(stack: seq<int>) returns (runs: seq<RunInfo>)
    ensures runs == DecodeOrEmpty(Reversed(stack))
  {
    var lines := stack;
    ghost var vals := Reversed(stack);
    ReversedTwice(stack);
    if |lines| % 4 != 0 {
      DecodeWhole(vals);
      return [];
    }
    runs := [];
    ghost var rest := vals;
    assert Decode(vals) == Prepend([], Decode(vals)) by {
      match Decode(vals)
      case None =>
      case Some(xs) => assert [] + xs == xs;
    }
    while |lines| > 0
      invariant lines == Reversed(rest) && |rest| % 4 == 0
      invariant Decode(vals) == Prepend(runs, Decode(rest))
      decreases |lines|
    {
      PopGroup(rest, lines);
      var record, left := ReadRecord(lines);
      if record.None? {
        RejectRun(vals, rest, runs);
        return [];
      }
      PrependRun(vals, rest, runs, record.value);
      runs := runs + [record.value];
      lines := left;
      rest := rest[4..];
    }
    assert rest == [] && runs + [] == runs;
  }

  /** `loadRunsFromFile` on the lines of the file: the values read by
      `getLines`, then decoded four at a time. The runs are what
      `DecodeFile` gives; if there are any, there is one per four lines. */
  method LoadRunsFromFile(ls: seq<string>) returns (runs: seq<RunInfo>)
    requires NoOverflow(Parsed(ls))
    ensures runs == DecodeFile(ls)
    ensures runs == [] || |ls| == 4 * |runs|
  {
    var lines := GetLines(ls);
    ReversedTwice(FileValues(ls));
    runs := DecodeStack(lines);
    FileAccepted(ls, runs);
  }
}
