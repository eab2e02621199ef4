/** Read offset lookup by INQUIRY strings: the rows of the product, of one vendor where that vendor
    has any, and a verdict on how many different offsets they hold. */
module Offsets {

  type Byte = bv8

  // ---- the matching rule ------------------------------------------------------------------------------

  predicate Blank(c: char) { c == ' ' || c == '\t' }

  function Upper(c: char): char {
    if 'a' <= c <= 'z' then ((c as int) - 32) as char else c
  }

  /** The maximal runs of nonblank characters, upper-cased. */
  function Words(s: string): (ws: seq<string>)
    ensures forall i :: 0 <= i < |ws| ==> |ws[i]| > 0
    ensures |s| > 0 && !Blank(s[|s| - 1]) ==> |ws| > 0
  {
    if |s| == 0 then []
    else
      var n, c := |s| - 1, s[|s| - 1];
      var ws := Words(s[..n]);
      if Blank(c) then ws
      else if n == 0 || Blank(s[n - 1]) then ws + [[Upper(c)]]
      else ws[..|ws| - 1] + [ws[|ws| - 1] + [Upper(c)]]
  }

  /** Words separated by single spaces. */
  function Join(ws: seq<string>): string {
    if |ws| == 0 then "" else if |ws| == 1 then ws[0] else Join(ws[..|ws| - 1]) + " " + ws[|ws| - 1]
  }

  function Normal(s: string): string {
    Join(Words(s))
  }

  lemma WordsStep(s: string, i: nat)
    requires i < |s|
    ensures
      var ws := Words(s[..i]);
      && (!Blank(s[i]) && i > 0 && !Blank(s[i - 1]) ==> |ws| > 0)
      && Words(s[..i + 1]) ==
           if Blank(s[i]) then ws
           else if i == 0 || Blank(s[i - 1]) then ws + [[Upper(s[i])]]
           else ws[..|ws| - 1] + [ws[|ws| - 1] + [Upper(s[i])]]
  {
    hide Upper;
    var t := s[..i + 1];
    assert t[..i] == s[..i] && t[i] == s[i];
    assert i > 0 ==> t[i - 1] == s[i - 1] && s[..i][i - 1] == s[i - 1];
  }

  lemma JoinNewWord(ws: seq<string>, w: string)
    ensures Join(ws + [w]) == if |ws| == 0 then w else Join(ws) + " " + w
  {
    assert (ws + [w])[..|ws|] == ws;
  }

  lemma JoinLongerWord(ws: seq<string>, c: char)
    requires |ws| > 0
    ensures Join(ws[..|ws| - 1] + [ws[|ws| - 1] + [c]]) == Join(ws) + [c]
  {
    var longer := ws[..|ws| - 1] + [ws[|ws| - 1] + [c]];
    assert longer[..|ws| - 1] == ws[..|ws| - 1];
  }

  /** One more character: nothing for a blank; a separator too when it starts a later word. */
  lemma NormalStep(s: string, i: nat)
    requires i < |s|
    ensures
      var c := s[i];
      var starts := i == 0 || Blank(s[i - 1]);
      Normal(s[..i + 1]) ==
        if Blank(c) then Normal(s[..i])
        else if starts && Normal(s[..i]) != "" then Normal(s[..i]) + [' ', Upper(c)]
        else Normal(s[..i]) + [Upper(c)]
    ensures !Blank(s[i]) ==> |Normal(s[..i + 1])| > 0
  {
    hide Words, Join, Upper;
    var ws := Words(s[..i]);
    WordsStep(s, i);
    JoinEmpty(ws);
    JoinNewWord(ws, [Upper(s[i])]);
    if |ws| > 0 {
      JoinLongerWord(ws, Upper(s[i]));
    }
    if !Blank(s[i]) && (i == 0 || Blank(s[i - 1])) && |ws| > 0 {
      assert Join(ws) + " " + [Upper(s[i])] == Join(ws) + [' ', Upper(s[i])];
    }
    if |ws| == 0 {
      assert Join(ws) == "";
    }
  }

  lemma JoinEmpty(ws: seq<string>)
    requires forall i :: 0 <= i < |ws| ==> |ws[i]| > 0
    ensures Join(ws) == "" <==> |ws| == 0
  {}

  lemma {:induction false} NormalGrows(s: string, i: nat)
    requires i <= |s|
    ensures Normal(s[..i]) <= Normal(s)
    decreases |s| - i
  {
    hide Normal;
    if i < |s| {
      NormalStep(s, i);
      NormalGrows(s, i + 1);
    } else {
      assert s[..i] == s;
    }
  }

  /** A normal form neither starts nor ends with a space. */
  lemma {:induction false} NormalEndsInWord(s: string, i: nat)
    requires i <= |s| && Normal(s[..i]) != ""
    ensures var t := Normal(s[..i]); !Blank(t[|t| - 1])
  {
    hide Normal, Upper;
    NormalOfNothing(s);
    if i > 0 {
      NormalStep(s, i - 1);
      UpperKeepsNonblank(s[i - 1]);
      if Blank(s[i - 1]) {
        NormalEndsInWord(s, i - 1);
      }
    }
  }

  lemma NormalOfNothing(s: string)
    ensures Normal(s[..0]) == ""
  {
    assert s[..0] == "";
  }

  lemma UpperKeepsNonblank(c: char)
    ensures Blank(Upper(c)) == Blank(c) && Upper(Upper(c)) == Upper(c)
  {}

  /** adsc_inquiry_normalize. The characters written before the terminator, which goes right behind
      them: the buffer holds them when they are fewer than its size. */
  method Normalize(src: string, cap: nat) returns (dst: string)
    requires cap > 0
    ensures IsWritten(src, cap, dst)
  {
    hide Normal, Upper;
    dst := "";
    var inSpace := true;
    var i := 0;
    NormalOfNothing(src);
    while i < |src| && |dst| + 1 < cap
      invariant i <= |src| && dst == Normal(src[..i]) && |dst| <= cap
      invariant |dst| == cap ==> cap >= 2 && dst[cap - 2] == ' '
      invariant inSpace <==> i == 0 || Blank(src[i - 1])
    {
      NormalStep(src, i);
      if Blank(src[i]) {
        inSpace := true;
      } else {
        if inSpace && |dst| > 0 {
          dst := dst + [' '];
        }
        inSpace := false;
        dst := dst + [Upper(src[i])];
      }
      i := i + 1;
    }
    assert dst == Normal(src[..i]);
  }

  /** What the loop leaves: the normal form of some prefix, the whole string or enough to fill. */
  ghost predicate IsWritten(src: string, cap: nat, dst: string) {
    exists i: nat {:trigger src[..i]} :: i <= |src| && dst == Normal(src[..i]) && |dst| <= cap
      && (i == |src| || |dst| + 1 >= cap)
      && (|dst| == cap ==> cap >= 2 && dst[cap - 2] == ' ')
  }

  /** The terminator lands inside the buffer exactly when the normal form does not put a separator
      in the place before the last while still having more to say. */
  lemma TerminatorFitsIff(src: string, cap: nat, dst: string)
    requires cap > 0 && IsWritten(src, cap, dst)
    ensures |dst| < cap <==> !(cap >= 2 && |Normal(src)| >= cap && Normal(src)[cap - 2] == ' ')
    ensures |dst| <= cap
  {
    hide Normal;
    var i: nat :| i <= |src| && dst == Normal(src[..i]) && |dst| <= cap
      && (i == |src| || |dst| + 1 >= cap) && (|dst| == cap ==> cap >= 2 && dst[cap - 2] == ' ');
    NormalGrows(src, i);
    if cap >= 2 && |Normal(src)| >= cap && Normal(src)[cap - 2] == ' ' {
      if i == |src| {
        assert src[..i] == src;
      } else {
        NormalEndsInWord(src, i);
      }
    }
  }

  function As(n: nat): (s: string)
    ensures |s| == n
  {
    seq(n, i => 'A')
  }

  lemma {:induction false} AsAreNormal(s: string, n: nat)
    requires n <= |s| && s[..n] == As(n)
    ensures Normal(s[..n]) == As(n)
  {
    hide Normal;
    NormalOfNothing(s);
    if n > 0 {
      assert s[..n - 1] == s[..n][..n - 1] == As(n - 1);
      assert s[n - 1] == s[..n][n - 1] == 'A';
      AsAreNormal(s, n - 1);
      NormalStep(s, n - 1);
      assert n > 1 ==> s[n - 2] == s[..n - 1][n - 2] == 'A';
      assert As(n) == As(n - 1) + ['A'];
    }
  }

  /** The overrun happens: thirty letters, a blank and one more letter fill a key buffer of 32 to its
      last byte, and the terminator goes behind it. */
  lemma TerminatorOverrunsTheKeyBuffer(dst: string)
    requires IsWritten(As(30) + " B", CAP, dst)
    ensures |dst| == CAP
  {
    hide Normal, IsWritten;
    var s := As(30) + " B";
    assert s[..30] == As(30) && s[29] == As(30)[29];
    AsAreNormal(s, 30);
    NormalStep(s, 30);
    NormalStep(s, 31);
    assert s[..32] == s;
    assert Normal(s) == As(30) + [' ', 'B'];
    TerminatorFitsIff(s, CAP, dst);
  }

  /** Input whose normal form fits comes out as that normal form. */
  lemma FittingInputIsNormalised(src: string, cap: nat, dst: string)
    requires cap > 0 && IsWritten(src, cap, dst) && |Normal(src)| < cap
    ensures dst == Normal(src)
  {
    hide Normal;
    var i: nat :| i <= |src| && dst == Normal(src[..i]) && |dst| <= cap
      && (i == |src| || |dst| + 1 >= cap) && (|dst| == cap ==> cap >= 2 && dst[cap - 2] == ' ');
    NormalGrows(src, i);
    if i == |src| {
      assert src[..i] == src;
    } else {
      assert |dst| == |Normal(src)|;
    }
  }

  lemma NormalOfExtended(t: string, c: char)
    ensures
      var starts := |t| == 0 || Blank(t[|t| - 1]);
      Normal(t + [c]) ==
        if Blank(c) then Normal(t)
        else if starts && Normal(t) != "" then Normal(t) + [' ', Upper(c)]
        else Normal(t) + [Upper(c)]
  {
    hide Normal, Upper;
    NormalStep(t + [c], |t|);
    assert (t + [c])[..|t|] == t && (t + [c])[..|t| + 1] == t + [c];
  }

  /** Normalising a normal form changes nothing. */
  lemma {:induction false} NormalIsIdempotent(s: string, i: nat)
    requires i <= |s|
    ensures Normal(Normal(s[..i])) == Normal(s[..i])
  {
    hide Normal, Upper, Blank;
    NormalOfNothing(s);
    if i > 0 {
      var t, c := Normal(s[..i - 1]), s[i - 1];
      NormalIsIdempotent(s, i - 1);
      NormalStep(s, i - 1);
      UpperKeepsNonblank(c);
      if t != "" {
        NormalEndsInWord(s, i - 1);
      }
      if !Blank(c) {
        if Normal(s[..i]) == t + [Upper(c)] {
          NormalOfExtended(t, Upper(c));
        } else {
          SpaceIsBlank();
          NormalOfExtended(t, ' ');
          NormalOfExtended(t + [' '], Upper(c));
          assert t + [' '] + [Upper(c)] == t + [' ', Upper(c)];
        }
      }
    } else {
      assert ""[..0] == "";
      NormalOfNothing("");
    }
  }

  /** Whatever the buffer took, terminator included, passes through unchanged the second time: also
      when it was cut. */
  lemma NormalizingTwiceIsOnce(src: string, cap: nat, once: string, twice: string)
    requires cap > 0 && IsWritten(src, cap, once) && |once| < cap && IsWritten(once, cap, twice)
    ensures twice == once
  {
    hide Normal;
    var i: nat :| i <= |src| && once == Normal(src[..i]);
    NormalIsIdempotent(src, i);
    FittingInputIsNormalised(once, cap, twice);
  }

  lemma SpaceIsBlank()
    ensures Blank(' ')
  {}

  // ---- the table -----------------------------------------------------------------------------------------

  const CAP := 32
  const MAX_VALUES := 4
  const OFFSET_NONE := -0x8000_0000
  const F_TRUNCATED: Byte := 0x02
  const F_GENERIC: Byte := 0x08

  datatype Row = Row(vendor: string, product: string, readOffset: int, arSubmissions: nat, arAgreePct: nat,
                     sources: Byte, flags: Byte, arAccOk: nat, arAccBad: nat)

  datatype Rc = Ok | NotFound | Ambiguous

  datatype Info = Info(readOffset: int, arSubmissions: nat, arAgreePct: nat, sources: Byte, flags: Byte,
                       values: seq<int>, valueSources: seq<Byte>, nValues: nat, arAccOk: nat, arAccBad: nat)

  const NO_INFO := Info(OFFSET_NONE, 0, 0, 0, 0, [], [], 0, 0, 0)

  /** Strings whose normal form the 32-byte key buffer takes together with its terminator. */
  predicate Fits(s: string) { !(|Normal(s)| >= CAP && Normal(s)[CAP - 2] == ' ') }

  predicate RowFits(r: Row) { Fits(r.vendor) && Fits(r.product) }

  /** What is compared: the normal form, cut to the buffer. */
  function Key(s: string): string {
    if |Normal(s)| < CAP then Normal(s) else Normal(s)[..CAP - 1]
  }

  lemma {:induction false} NormalIsNoLonger(s: string, i: nat)
    requires i <= |s|
    ensures |Normal(s[..i])| <= i
  {
    hide Normal, Upper;
    NormalOfNothing(s);
    if i > 0 {
      NormalStep(s, i - 1);
      NormalIsNoLonger(s, i - 1);
      if i > 1 {
        NormalStep(s, i - 2);
        NormalIsNoLonger(s, i - 2);
      }
    }
  }

  /** The INQUIRY vendor and product fields, of 8 and 16 characters, always fit. */
  lemma DeviceFieldsFit(s: string)
    requires |s| < CAP
    ensures Fits(s)
  {
    hide Normal;
    NormalIsNoLonger(s, |s|);
    assert s[..|s|] == s;
  }

  lemma KeyIsWritten(src: string, dst: string)
    requires Fits(src) && IsWritten(src, CAP, dst)
    ensures dst == Key(src)
  {
    hide Normal;
    var i: nat :| i <= |src| && dst == Normal(src[..i]) && |dst| <= CAP
      && (i == |src| || |dst| + 1 >= CAP) && (|dst| == CAP ==> CAP >= 2 && dst[CAP - 2] == ' ');
    NormalGrows(src, i);
    if i == |src| {
      assert src[..i] == src;
    } else {
      assert dst == Normal(src)[..|dst|];
    }
  }

  /** One key buffer filled. */
  method KeyOf(src: string) returns (dst: string)
    requires Fits(src)
    ensures dst == Key(src)
  {
    dst := Normalize(src, CAP);
    KeyIsWritten(src, dst);
  }

  predicate ProductMatches(r: Row, product: string) { Key(r.product) == Key(product) }

  predicate VendorMatches(r: Row, vendor: string) { Key(r.vendor) == Key(vendor) }

  predicate Generic(r: Row) { r.flags & F_GENERIC != 0 }

  /** Some row of the product carries the vendor asked for. */
  ghost predicate VendorNarrows(table: seq<Row>, vendor: string, product: string) {
    exists i {:trigger table[i]} :: 0 <= i < |table| && ProductMatches(table[i], product) &&
      VendorMatches(table[i], vendor)
  }

  /** A row may answer: of the product, and of the vendor where the vendor narrows, otherwise not of
      a category name. */
  predicate MayAnswer(r: Row, vendor: string, product: string, narrowed: bool) {
    ProductMatches(r, product) && (if narrowed then VendorMatches(r, vendor) else !Generic(r))
  }

  function Candidates(table: seq<Row>, vendor: string, product: string, narrowed: bool): seq<Row> {
    if |table| == 0 then []
    else
      Candidates(table[..|table| - 1], vendor, product, narrowed) +
      (if MayAnswer(table[|table| - 1], vendor, product, narrowed) then [table[|table| - 1]] else [])
  }

  ghost function OffsetsOf(rows: seq<Row>): set<int> {
    set i | 0 <= i < |rows| :: rows[i].readOffset
  }

  function Or(a: Byte, b: Byte): Byte { a | b }

  /** Which byte of a row is collected: its sources, its flags, or its sources if it holds the offset. */
  datatype Pick = Sources | Flags | SourcesAt(offset: int)

  function Bits(p: Pick, r: Row): Byte {
    match p
    case Sources => r.sources
    case Flags => r.flags
    case SourcesAt(x) => if r.readOffset == x then r.sources else 0
  }

  /** The bits of all rows together. */
  function Union(rows: seq<Row>, p: Pick): Byte {
    if |rows| == 0 then 0 else Or(Union(rows[..|rows| - 1], p), Bits(p, rows[|rows| - 1]))
  }

  /** Row with the most submissions, the first of them on a tie. */
  function BestOf(rows: seq<Row>): Row
    requires |rows| > 0
  {
    var last := rows[|rows| - 1];
    if |rows| == 1 then last
    else
      var best := BestOf(rows[..|rows| - 1]);
      if last.arSubmissions > best.arSubmissions then last else best
  }

  // ---- the scan -----------------------------------------------------------------------------------------

  datatype MaybeRow = NoRow | TheRow(row: Row)

  /** What pass 2 has gathered. */
  datatype Scan = Scan(vals: seq<int>, vsrc: seq<Byte>, overflow: bool, sources: Byte, flags: Byte, best: MaybeRow)

  ghost predicate Distinct(vals: seq<int>) {
    forall i, j :: 0 <= i < j < |vals| ==> vals[i] != vals[j]
  }

  ghost function Values(vals: seq<int>): set<int> {
    set i | 0 <= i < |vals| :: vals[i]
  }

  /** The first four distinct offsets, in the order the rows bring them up. */
  ghost function FirstSeen(rows: seq<Row>): seq<int> {
    if |rows| == 0 then []
    else
      var seen, x := FirstSeen(rows[..|rows| - 1]), rows[|rows| - 1].readOffset;
      if x in seen || |seen| == MAX_VALUES then seen else seen + [x]
  }

  /** Distinct offsets of the rows, all of them unless four did not suffice. */
  ghost predicate Listed(rows: seq<Row>, vals: seq<int>, vsrc: seq<Byte>, overflow: bool) {
    && |vals| == |vsrc| <= MAX_VALUES
    && vals == FirstSeen(rows) && Distinct(vals)
    && Values(vals) <= OffsetsOf(rows)
    && (overflow <==> !(OffsetsOf(rows) <= Values(vals)))
    && (overflow ==> |vals| == MAX_VALUES)
    && (forall k :: 0 <= k < |vals| ==> vsrc[k] == Union(rows, SourcesAt(vals[k])))
  }

  ghost predicate Gathered(rows: seq<Row>, g: Scan) {
    && Listed(rows, g.vals, g.vsrc, g.overflow)
    && g.sources == Union(rows, Sources) && g.flags == Union(rows, Flags)
    && g.best == if |rows| == 0 then NoRow else TheRow(BestOf(rows))
  }

  lemma OneMoreRow(rows: seq<Row>, r: Row)
    ensures OffsetsOf(rows + [r]) == OffsetsOf(rows) + {r.readOffset}
    ensures
      var seen := FirstSeen(rows);
      FirstSeen(rows + [r]) == if r.readOffset in seen || |seen| == MAX_VALUES then seen else seen + [r.readOffset]
    ensures forall p {:trigger Union(rows, p)} :: Union(rows + [r], p) == Or(Union(rows, p), Bits(p, r))
  {
    hide Or;
    var longer := rows + [r];
    assert longer[..|rows|] == rows;
    forall x | x in OffsetsOf(rows) + {r.readOffset}
      ensures x in OffsetsOf(longer)
    {
      if x in OffsetsOf(rows) {
        var i :| 0 <= i < |rows| && rows[i].readOffset == x;
        assert longer[i].readOffset == x;
      } else {
        assert longer[|rows|].readOffset == x;
      }
    }
  }

  lemma {:induction false} NoSourcesForAbsent(rows: seq<Row>, x: int)
    requires x !in OffsetsOf(rows)
    ensures Union(rows, SourcesAt(x)) == 0
  {
    hide Or;
    OrZero(0);
    if |rows| > 0 {
      var shorter := rows[..|rows| - 1];
      assert rows[|rows| - 1].readOffset in OffsetsOf(rows);
      forall y | y in OffsetsOf(shorter)
        ensures y in OffsetsOf(rows)
      {
        var i :| 0 <= i < |shorter| && shorter[i].readOffset == y;
        assert rows[i].readOffset == y;
      }
      NoSourcesForAbsent(shorter, x);
    }
  }

  /** Position of an offset among the values, or their number. */
  method FindValue(vals: seq<int>, x: int) returns (k: nat)
    ensures k <= |vals| && (k < |vals| ==> vals[k] == x) && (k == |vals| ==> x !in Values(vals))
  {
    k := 0;
    while k < |vals| && vals[k] != x
      invariant k <= |vals| && forall j :: 0 <= j < k ==> vals[j] != x
    {
      k := k + 1;
    }
  }

  lemma KnownValue(rows: seq<Row>, vals: seq<int>, vsrc: seq<Byte>, overflow: bool, r: Row, k: nat)
    requires Listed(rows, vals, vsrc, overflow) && k < |vals| && vals[k] == r.readOffset
    ensures Listed(rows + [r], vals, vsrc[k := Or(vsrc[k], r.sources)], overflow)
  {
    hide Or, Union, OffsetsOf, FirstSeen;
    OneMoreRow(rows, r);
    OrZeroAll();
    assert r.readOffset in Values(vals);
  }

  lemma NewValue(rows: seq<Row>, vals: seq<int>, vsrc: seq<Byte>, overflow: bool, r: Row)
    requires Listed(rows, vals, vsrc, overflow) && r.readOffset !in Values(vals) && |vals| < MAX_VALUES
    ensures Listed(rows + [r], vals + [r.readOffset], vsrc + [r.sources], false)
  {
    hide Or, Union, OffsetsOf, FirstSeen;
    OneMoreRow(rows, r);
    NoSourcesForAbsent(rows, r.readOffset);
    OrZeroAll();
    var longer := vals + [r.readOffset];
    forall x | x in Values(vals) + {r.readOffset}
      ensures x in Values(longer)
    {
      if x in Values(vals) {
        var i :| 0 <= i < |vals| && vals[i] == x;
        assert longer[i] == x;
      } else {
        assert longer[|vals|] == x;
      }
    }
    assert Values(longer) == Values(vals) + {r.readOffset};
    forall i | 0 <= i < |vals|
      ensures vals[i] in Values(vals)
    {}
  }

  lemma OneTooMany(rows: seq<Row>, vals: seq<int>, vsrc: seq<Byte>, overflow: bool, r: Row)
    requires Listed(rows, vals, vsrc, overflow) && r.readOffset !in Values(vals) && |vals| == MAX_VALUES
    ensures Listed(rows + [r], vals, vsrc, true)
  {
    hide Or, Union, OffsetsOf, FirstSeen;
    OneMoreRow(rows, r);
    OrZeroAll();
    forall i | 0 <= i < |vals|
      ensures vals[i] in Values(vals)
    {}
  }

  lemma ListedSizes(rows: seq<Row>, vals: seq<int>, vsrc: seq<Byte>, overflow: bool)
    requires Listed(rows, vals, vsrc, overflow)
    ensures |vals| == |vsrc| <= MAX_VALUES && (overflow ==> |vals| == MAX_VALUES)
  {}

  lemma OrZero(b: Byte)
    ensures Or(0, b) == b && Or(b, 0) == b
  {}

  lemma OrZeroAll()
    ensures forall b :: Or(0, b) == b && Or(b, 0) == b
  {}

  lemma BestStep(rows: seq<Row>, r: Row)
    ensures BestOf(rows + [r]) ==
      if |rows| == 0 || r.arSubmissions > BestOf(rows).arSubmissions then r else BestOf(rows)
  {
    assert (rows + [r])[..|rows|] == rows;
  }

  lemma UnionsStep(rows: seq<Row>, r: Row)
    ensures Union(rows + [r], Sources) == Or(Union(rows, Sources), r.sources)
    ensures Union(rows + [r], Flags) == Or(Union(rows, Flags), r.flags)
  {
    assert (rows + [r])[..|rows|] == rows;
  }

  /** One candidate row taken into account. */
  method Merge(g: Scan, r: Row, ghost rows: seq<Row>) returns (g': Scan)
    requires Gathered(rows, g)
    ensures Gathered(rows + [r], g')
  {
    hide Listed, Or, Union, OffsetsOf, Values, FirstSeen, BestOf, Bits;
    ListedSizes(rows, g.vals, g.vsrc, g.overflow);
    UnionsStep(rows, r);
    BestStep(rows, r);
    g' := g.(sources := Or(g.sources, r.sources), flags := Or(g.flags, r.flags));
    if g.best.NoRow? || r.arSubmissions > g.best.row.arSubmissions {
      g' := g'.(best := TheRow(r));
    }
    var k := FindValue(g.vals, r.readOffset);
    if k < |g.vals| {
      KnownValue(rows, g.vals, g.vsrc, g.overflow, r, k);
      g' := g'.(vsrc := g.vsrc[k := Or(g.vsrc[k], r.sources)]);
    } else if |g.vals| < MAX_VALUES {
      NewValue(rows, g.vals, g.vsrc, g.overflow, r);
      g' := g'.(vals := g.vals + [r.readOffset], vsrc := g.vsrc + [r.sources]);
    } else {
      OneTooMany(rows, g.vals, g.vsrc, g.overflow, r);
      g' := g'.(overflow := true);
    }
  }

  // ---- the lookup ---------------------------------------------------------------------------------------

  lemma CandidatesStep(table: seq<Row>, i: nat, vendor: string, product: string, narrowed: bool)
    requires i < |table|
    ensures Candidates(table[..i + 1], vendor, product, narrowed) ==
            Candidates(table[..i], vendor, product, narrowed) +
            (if MayAnswer(table[i], vendor, product, narrowed) then [table[i]] else [])
  {
    hide MayAnswer;
    var t := table[..i + 1];
    assert t[..i] == table[..i] && t[i] == table[i];
  }

  /** Pass 1: whether the vendor narrows anything. */
  method VendorHit(table: seq<Row>, vendor: string, product: string) returns (hit: bool)
    requires Fits(vendor) && Fits(product) && forall r :: r in table ==> RowFits(r)
    ensures hit <==> VendorNarrows(table, vendor, product)
  {
    hide Key, Fits;
    hit := false;
    var wantV := KeyOf(vendor);
    var wantP := KeyOf(product);
    var i := 0;
    while i < |table| && !hit
      invariant i <= |table| && (hit ==> VendorNarrows(table, vendor, product))
      invariant !hit ==> forall j :: 0 <= j < i && ProductMatches(table[j], product) ==>
        !VendorMatches(table[j], vendor)
    {
      assert RowFits(table[i]);
      var haveP := KeyOf(table[i].product);
      if wantP == haveP {
        var haveV := KeyOf(table[i].vendor);
        hit := wantV == haveV;
      }
      i := i + 1;
    }
  }

  /** Pass 2: every candidate row merged, in table order. */
  method Gather(table: seq<Row>, vendor: string, product: string, narrowed: bool) returns (g: Scan)
    requires Fits(vendor) && Fits(product) && forall r :: r in table ==> RowFits(r)
    ensures Gathered(Candidates(table, vendor, product, narrowed), g)
  {
    hide Key, Fits, Candidates;
    var wantV := KeyOf(vendor);
    var wantP := KeyOf(product);
    g := Scan([], [], false, 0, 0, NoRow);
    NothingGathered(table, vendor, product, narrowed);
    var i := 0;
    while i < |table|
      invariant i <= |table| && Gathered(Candidates(table[..i], vendor, product, narrowed), g)
    {
      hide Gathered;
      CandidatesStep(table, i, vendor, product, narrowed);
      ghost var rows := Candidates(table[..i], vendor, product, narrowed);
      assert rows + [] == rows;
      assert RowFits(table[i]);
      var r := table[i];
      i := i + 1;
      var haveP := KeyOf(r.product);
      if wantP != haveP {
        continue;
      }
      if narrowed {
        var haveV := KeyOf(r.vendor);
        if wantV != haveV {
          continue;
        }
      } else if r.flags & F_GENERIC != 0 {
        continue;
      }
      g := Merge(g, r, rows);
    }
    assert table[..i] == table;
  }

  lemma NothingGathered(table: seq<Row>, vendor: string, product: string, narrowed: bool)
    ensures Gathered(Candidates(table[..0], vendor, product, narrowed), Scan([], [], false, 0, 0, NoRow))
  {
    var rows := Candidates(table[..0], vendor, product, narrowed);
    assert rows == [];
    assert OffsetsOf(rows) == {} && Values([]) == {};
  }

  /** The candidate rows of a query: of nothing, none. */
  ghost function Answering(table: seq<Row>, vendor: string, product: string): seq<Row> {
    if Key(product) == "" then [] else Candidates(table, vendor, product, VendorNarrows(table, vendor, product))
  }

  /** The answer the set of candidate offsets calls for. */
  ghost predicate IsAnswer(rows: seq<Row>, hasValues: bool, hasAccuracy: bool, rc: Rc, out: Info) {
    var offsets := OffsetsOf(rows);
    && (rc == NotFound <==> |offsets| == 0)
    && (rc == Ok <==> |offsets| == 1)
    && (rc == Ambiguous <==> |offsets| > 1)
    && (rc == NotFound ==> out == NO_INFO)
    && out.nValues == (if |offsets| < MAX_VALUES then |offsets| else MAX_VALUES)
    && out.sources == Union(rows, Sources)
    && out.flags == (if |offsets| > MAX_VALUES then Or(Union(rows, Flags), F_TRUNCATED) else Union(rows, Flags))
    && (if hasValues then Listed(rows, out.values, out.valueSources, |offsets| > MAX_VALUES)
        else out.values == [] && out.valueSources == [])
    && (if rc == Ok then offsets == {out.readOffset} else out.readOffset == OFFSET_NONE)
    && (if rc == Ok then
          var best := BestOf(rows);
          && out.arSubmissions == best.arSubmissions && out.arAgreePct == best.arAgreePct
          && (if hasAccuracy then out.arAccOk == best.arAccOk && out.arAccBad == best.arAccBad
              else out.arAccOk == 0 && out.arAccBad == 0)
        else out.arSubmissions == 0 && out.arAgreePct == 0 && out.arAccOk == 0 && out.arAccBad == 0)
  }

  /** accudisc_offset_for_inquiry. */
  method Lookup(table: seq<Row>, vendor: string, product: string, hasValues: bool, hasAccuracy: bool)
    returns (rc: Rc, out: Info)
    requires Fits(vendor) && Fits(product) && forall r :: r in table ==> RowFits(r)
    ensures IsAnswer(Answering(table, vendor, product), hasValues, hasAccuracy, rc, out)
  {
    hide Key, Fits, Gathered, IsAnswer, VendorNarrows, Candidates, RowFits;
    out := NO_INFO;
    var wantP := KeyOf(product);
    if wantP == "" {
      NoRowsNoAnswer(hasValues, hasAccuracy);
      return NotFound, out;
    }
    var narrowed := VendorHit(table, vendor, product);
    var g := Gather(table, vendor, product, narrowed);
    ghost var rows := Answering(table, vendor, product);
    out := out.(sources := g.sources, flags := g.flags);
    GatheredSome(rows, g);
    if g.best.NoRow? {
      NoRowsNoAnswer(hasValues, hasAccuracy);
      return NotFound, out;
    }
    if hasValues {
      out := out.(values := g.vals, valueSources := g.vsrc);
    }
    out := out.(nValues := |g.vals|);
    if g.overflow {
      out := out.(flags := Or(out.flags, F_TRUNCATED));
    }
    if |g.vals| > 1 {
      rc := Ambiguous;
    } else {
      rc := Ok;
      out := out.(arSubmissions := g.best.row.arSubmissions, arAgreePct := g.best.row.arAgreePct);
      if hasAccuracy {
        out := out.(arAccOk := g.best.row.arAccOk, arAccBad := g.best.row.arAccBad);
      }
      out := out.(readOffset := g.vals[0]);
    }
    GatheredAnswers(rows, g, hasValues, hasAccuracy, rc, out);
  }

  lemma NoRowsNoAnswer(hasValues: bool, hasAccuracy: bool)
    ensures IsAnswer([], hasValues, hasAccuracy, NotFound, NO_INFO)
  {
    assert OffsetsOf([]) == {} && Values([]) == {};
  }

  lemma GatheredSome(rows: seq<Row>, g: Scan)
    requires Gathered(rows, g)
    ensures g.best.NoRow? ==> rows == [] && g.sources == 0 && g.flags == 0
    ensures !g.best.NoRow? ==> |rows| > 0 && |g.vals| > 0
    ensures |g.vals| == |g.vsrc|
  {
    if |rows| > 0 {
      assert rows[0].readOffset in OffsetsOf(rows);
      if !g.overflow {
        assert rows[0].readOffset in Values(g.vals);
      }
    }
  }

  lemma {:induction false} DistinctCount(vals: seq<int>)
    requires Distinct(vals)
    ensures |Values(vals)| == |vals|
  {
    if |vals| == 0 {
      assert Values(vals) == {};
    } else {
      var n := |vals| - 1;
      DistinctCount(vals[..n]);
      forall x | x in Values(vals[..n]) + {vals[n]}
        ensures x in Values(vals)
      {
        if x in Values(vals[..n]) {
          var i :| 0 <= i < n && vals[..n][i] == x;
          assert vals[i] == x;
        }
      }
      forall x | x in Values(vals)
        ensures x in Values(vals[..n]) + {vals[n]}
      {
        var i :| 0 <= i < |vals| && vals[i] == x;
        if i < n {
          assert vals[..n][i] == x;
        }
      }
      assert Values(vals) == Values(vals[..n]) + {vals[n]};
      assert vals[n] !in Values(vals[..n]);
    }
  }

  lemma SubsetCount(a: set<int>, b: set<int>)
    requires a <= b
    ensures |a| <= |b| && (|a| == |b| <==> a == b)
  {
    assert b == a + (b - a);
    if b - a == {} {
    } else {
      assert |b - a| > 0;
    }
  }

  /** The number of values listed, and the overflow mark, in terms of the set of offsets. */
  lemma ListedCounts(rows: seq<Row>, vals: seq<int>, vsrc: seq<Byte>, overflow: bool)
    requires Listed(rows, vals, vsrc, overflow)
    ensures |vals| == if |OffsetsOf(rows)| < MAX_VALUES then |OffsetsOf(rows)| else MAX_VALUES
    ensures overflow <==> |OffsetsOf(rows)| > MAX_VALUES
    ensures |vals| == 1 ==> OffsetsOf(rows) == {vals[0]}
  {
    DistinctCount(vals);
    SubsetCount(Values(vals), OffsetsOf(rows));
    if |vals| == 1 {
      assert Values(vals) == {vals[0]};
    }
  }

  lemma GatheredAnswers(rows: seq<Row>, g: Scan, hasValues: bool, hasAccuracy: bool, rc: Rc, out: Info)
    requires Gathered(rows, g) && |rows| > 0 && |g.vals| > 0 && g.best.TheRow?
    requires rc == if |g.vals| > 1 then Ambiguous else Ok
    requires
      var ok := rc == Ok;
      var best := g.best.row;
      out == Info(
        if ok then g.vals[0] else OFFSET_NONE,
        if ok then best.arSubmissions else 0,
        if ok then best.arAgreePct else 0,
        g.sources,
        if g.overflow then Or(g.flags, F_TRUNCATED) else g.flags,
        if hasValues then g.vals else [],
        if hasValues then g.vsrc else [],
        |g.vals|,
        if ok && hasAccuracy then best.arAccOk else 0,
        if ok && hasAccuracy then best.arAccBad else 0)
    ensures IsAnswer(rows, hasValues, hasAccuracy, rc, out)
  {
    hide Listed, OffsetsOf, Union, Or, BestOf;
    ListedCounts(rows, g.vals, g.vsrc, g.overflow);
  }

  // ---- spellings ----------------------------------------------------------------------------------------

  /** The word in capitals: 'a' to 'z' become 'A' to 'Z', everything else stays. */
  ghost function Caps(w: string): (c: string)
    ensures |c| == |w|
    ensures forall k :: 0 <= k < |w| ==>
      c[k] == if 'a' <= w[k] <= 'z' then (w[k] as int - 'a' as int + 'A' as int) as char else w[k]
  {
    seq(|w|, (k: nat) requires k < |w| =>
      if 'a' <= w[k] <= 'z' then (w[k] as int - 'a' as int + 'A' as int) as char else w[k])
  }

  /** The words in capitals with single spaces between them. */
  ghost function Canon(words: seq<string>): string {
    if |words| == 0 then ""
    else if |words| == 1 then Caps(words[0])
    else Canon(words[..|words| - 1]) + " " + Caps(words[|words| - 1])
  }

  /** The words written out with these gaps before, between and behind them. */
  ghost function Spelled(words: seq<string>, gaps: seq<string>): string
    requires |gaps| == |words| + 1
  {
    if |words| == 0 then gaps[0]
    else Spelled(words[..|words| - 1], gaps[..|words|]) + words[|words| - 1] + gaps[|words|]
  }

  ghost predicate IsGap(g: string) { forall k :: 0 <= k < |g| ==> g[k] == ' ' || g[k] == '\t' }

  ghost predicate IsWord(w: string) { |w| > 0 && forall k :: 0 <= k < |w| ==> w[k] != ' ' && w[k] != '\t' }

  ghost predicate IsSpelling(words: seq<string>, gaps: seq<string>) {
    && |gaps| == |words| + 1
    && (forall i :: 0 <= i < |words| ==> IsWord(words[i]))
    && (forall i :: 0 <= i < |gaps| ==> IsGap(gaps[i]))
    && (forall i :: 0 < i < |words| ==> |gaps[i]| > 0)
  }

  lemma {:induction false} GapsAddNothing(t: string, g: string)
    requires IsGap(g)
    ensures Normal(t + g) == Normal(t)
  {
    hide Normal, Upper;
    if |g| == 0 {
      assert t + g == t;
    } else {
      var n := |g| - 1;
      GapsAddNothing(t, g[..n]);
      NormalOfExtended(t + g[..n], g[n]);
      assert t + g == t + g[..n] + [g[n]];
    }
  }

  lemma CapsStep(w: string)
    requires |w| > 0
    ensures Caps(w) == Caps(w[..|w| - 1]) + [Upper(w[|w| - 1])]
  {}

  lemma NoCaps()
    ensures Caps("") == ""
  {}

  lemma {:induction false} WordsAreAdded(t: string, w: string)
    requires IsWord(w) && (|t| == 0 || Blank(t[|t| - 1]))
    ensures Normal(t + w) == if Normal(t) == "" then Caps(w) else Normal(t) + " " + Caps(w)
  {
    hide Normal, Caps, Upper;
    var n := |w| - 1;
    NormalOfExtended(t + w[..n], w[n]);
    CapsStep(w);
    assert t + w == t + w[..n] + [w[n]];
    if n == 0 {
      NoCaps();
      assert t + w[..n] == t;
    } else {
      WordsAreAdded(t, w[..n]);
      CapsNotEmpty(w[..n]);
      assert (t + w[..n])[|t| + n - 1] == w[n - 1];
    }
  }

  lemma CapsNotEmpty(w: string)
    requires |w| > 0
    ensures Caps(w) != ""
  {}

  lemma CanonIsEmptyIff(words: seq<string>)
    requires forall i :: 0 <= i < |words| ==> IsWord(words[i])
    ensures Canon(words) == "" <==> |words| == 0
  {}

  /** Whatever the blanks and the case, what is compared is the words in capitals, single-spaced, as far
      as 31 characters go. */
  lemma {:induction false} SpellingIsForgotten(words: seq<string>, gaps: seq<string>)
    requires IsSpelling(words, gaps)
    ensures Normal(Spelled(words, gaps)) == Canon(words)
    ensures Key(Spelled(words, gaps)) == if |Canon(words)| < 32 then Canon(words) else Canon(words)[..31]
  {
    hide Normal, Caps;
    var n := |words| - 1;
    if n < 0 {
      GapsAddNothing("", gaps[0]);
      assert "" + gaps[0] == gaps[0] && ""[..0] == "";
      NormalOfNothing("");
    } else {
      var before := Spelled(words[..n], gaps[..n + 1]);
      SpellingIsForgotten(words[..n], gaps[..n + 1]);
      CanonIsEmptyIff(words[..n]);
      EndsInGap(words[..n], gaps[..n + 1]);
      WordsAreAdded(before, words[n]);
      GapsAddNothing(before + words[n], gaps[n + 1]);
    }
  }

  lemma EndsInGap(words: seq<string>, gaps: seq<string>)
    requires |gaps| == |words| + 1 && IsGap(gaps[|words|]) && (|words| > 0 ==> |gaps[|words|]| > 0)
    ensures var t := Spelled(words, gaps); |t| == 0 || Blank(t[|t| - 1])
  {}

  // ---- the answer in terms of the rows --------------------------------------------------------------------

  /** Which rows a query is answered from. */
  lemma AnswersFromIff(table: seq<Row>, vendor: string, product: string, r: Row)
    ensures r in Answering(table, vendor, product) <==>
      && Key(product) != "" && r in table && Key(r.product) == Key(product)
      && (if exists q :: q in table && Key(q.product) == Key(product) && Key(q.vendor) == Key(vendor)
          then Key(r.vendor) == Key(vendor) else r.flags & 0x08 == 0)
  {
    hide Key, Candidates;
    var narrowed := VendorNarrows(table, vendor, product);
    CandidateMember(table, vendor, product, narrowed, r);
    if q :| q in table && Key(q.product) == Key(product) && Key(q.vendor) == Key(vendor) {
      var i :| 0 <= i < |table| && table[i] == q;
      assert ProductMatches(table[i], product) && VendorMatches(table[i], vendor);
    }
  }

  /** The byte has one of these bits. */
  ghost predicate Has(b: Byte, mask: Byte) { b & mask != 0 }

  lemma OrHas(a: Byte, b: Byte, mask: Byte)
    ensures Has(Or(a, b), mask) <==> Has(a, mask) || Has(b, mask)
  {}

  lemma ZeroHasNothing(mask: Byte)
    ensures !Has(0, mask)
  {}

  lemma {:induction false} UnionHasIff(rows: seq<Row>, p: Pick, mask: Byte)
    ensures Has(Union(rows, p), mask) <==> exists r {:trigger Bits(p, r)} :: r in rows && Has(Bits(p, r), mask)
  {
    hide Or, Bits, Has;
    if |rows| == 0 {
      ZeroHasNothing(mask);
    } else {
      var n := |rows| - 1;
      UnionHasIff(rows[..n], p, mask);
      OrHas(Union(rows[..n], p), Bits(p, rows[n]), mask);
      assert rows == rows[..n] + [rows[n]];
      assert rows[n] in rows;
    }
  }

  /** The bytes of an answer hold exactly the bits of the rows it rests on; the flag for more offsets
      than are listed is added when there are more than four. */
  lemma AnswerBitsIff(rows: seq<Row>, hasAccuracy: bool, rc: Rc, out: Info, mask: Byte)
    requires IsAnswer(rows, true, hasAccuracy, rc, out)
    ensures Has(out.sources, mask) <==> exists r :: r in rows && Has(r.sources, mask)
    ensures Has(out.flags, mask) <==>
      (exists r :: r in rows && Has(r.flags, mask)) || (|OffsetsOf(rows)| > 4 && Has(0x02, mask))
    ensures |out.values| == |out.valueSources|
    ensures forall k :: 0 <= k < |out.values| ==>
      (Has(out.valueSources[k], mask) <==>
       exists r :: r in rows && r.readOffset == out.values[k] && Has(r.sources, mask))
  {
    hide OffsetsOf, Union, BestOf, FirstSeen, Or, Has;
    SourceBits(rows, mask);
    OrHas(Union(rows, Flags), F_TRUNCATED, mask);
    forall k | 0 <= k < |out.values|
      ensures Has(out.valueSources[k], mask) <==>
        exists r :: r in rows && r.readOffset == out.values[k] && Has(r.sources, mask)
    {
      SourceBitsAt(rows, out.values[k], mask);
    }
  }

  lemma SourceBits(rows: seq<Row>, mask: Byte)
    ensures Has(Union(rows, Sources), mask) <==> exists r :: r in rows && Has(r.sources, mask)
    ensures Has(Union(rows, Flags), mask) <==> exists r :: r in rows && Has(r.flags, mask)
  {
    hide Union, Has;
    UnionHasIff(rows, Sources, mask);
    UnionHasIff(rows, Flags, mask);
    forall r
      ensures Bits(Sources, r) == r.sources && Bits(Flags, r) == r.flags
    {}
  }

  lemma SourceBitsAt(rows: seq<Row>, x: int, mask: Byte)
    ensures Has(Union(rows, SourcesAt(x)), mask) <==>
      exists r :: r in rows && r.readOffset == x && Has(r.sources, mask)
  {
    hide Union, Has;
    UnionHasIff(rows, SourcesAt(x), mask);
    ZeroHasNothing(mask);
    forall r
      ensures Has(Bits(SourcesAt(x), r), mask) <==> r.readOffset == x && Has(r.sources, mask)
    {}
  }

  /** The verdict on the rows that answer: an offset exactly when they all agree on it, and otherwise a
      number no drive has. */
  lemma VerdictIff(rows: seq<Row>, hasValues: bool, hasAccuracy: bool, rc: Rc, out: Info)
    requires IsAnswer(rows, hasValues, hasAccuracy, rc, out)
    ensures rc == NotFound <==> rows == []
    ensures rc == Ok <==> rows != [] && forall r :: r in rows ==> r.readOffset == rows[0].readOffset
    ensures out.readOffset == if rc == Ok then rows[0].readOffset else -0x8000_0000
    ensures out.nValues == if |OffsetsOf(rows)| < 4 then |OffsetsOf(rows)| else 4
  {
    hide Union, BestOf, Listed, Or;
    var offsets := OffsetsOf(rows);
    if rows == [] {
      NoOffsets(rows);
    } else {
      assert rows[0].readOffset in offsets;
      if forall r :: r in rows ==> r.readOffset == rows[0].readOffset {
        assert offsets == {rows[0].readOffset};
      } else {
        var r :| r in rows && r.readOffset != rows[0].readOffset;
        var i :| 0 <= i < |rows| && rows[i] == r;
        assert r.readOffset in offsets;
        assert {rows[0].readOffset, r.readOffset} <= offsets;
        SubsetCount({rows[0].readOffset, r.readOffset}, offsets);
      }
    }
  }

  // ---- row order --------------------------------------------------------------------------------------

  lemma {:induction false} CandidateMember(table: seq<Row>, vendor: string, product: string, narrowed: bool, r: Row)
    ensures r in Candidates(table, vendor, product, narrowed) <==> r in table && MayAnswer(r, vendor, product, narrowed)
  {
    hide MayAnswer;
    if |table| > 0 {
      var n := |table| - 1;
      CandidateMember(table[..n], vendor, product, narrowed, r);
      assert table == table[..n] + [table[n]];
    }
  }

  lemma OrLaws(a: Byte, b: Byte, c: Byte)
    ensures Or(a, b) == Or(b, a) && Or(Or(a, b), c) == Or(a, Or(b, c)) && Or(a, a) == a
  {}

  lemma {:induction false} UnionAbsorbsMember(rows: seq<Row>, p: Pick, r: Row)
    requires r in rows
    ensures Or(Bits(p, r), Union(rows, p)) == Union(rows, p)
  {
    hide Or, Bits;
    var n := |rows| - 1;
    var u, last, b := Union(rows[..n], p), Bits(p, rows[n]), Bits(p, r);
    OrLaws(b, u, last);
    if r == rows[n] {
      OrLaws(u, b, b);
      OrLaws(b, Or(u, b), b);
    } else {
      var i :| 0 <= i < |rows| && rows[i] == r;
      assert rows[..n][i] == r;
      UnionAbsorbsMember(rows[..n], p, r);
    }
  }

  lemma {:induction false} UnionAbsorbsSubset(rows: seq<Row>, more: seq<Row>, p: Pick)
    requires forall r :: r in rows ==> r in more
    ensures Or(Union(rows, p), Union(more, p)) == Union(more, p)
  {
    hide Or, Bits;
    if |rows| == 0 {
      OrZero(Union(more, p));
    } else {
      var n := |rows| - 1;
      assert rows[n] in rows;
      UnionAbsorbsSubset(rows[..n], more, p);
      UnionAbsorbsMember(more, p, rows[n]);
      OrLaws(Union(rows[..n], p), Bits(p, rows[n]), Union(more, p));
    }
  }

  /** The chosen row is one of them and no other has more submissions. */
  lemma {:induction false} BestIsMost(rows: seq<Row>)
    requires |rows| > 0
    ensures BestOf(rows) in rows && forall r :: r in rows ==> r.arSubmissions <= BestOf(rows).arSubmissions
  {
    if |rows| > 1 {
      var n := |rows| - 1;
      BestIsMost(rows[..n]);
      assert rows == rows[..n] + [rows[n]];
    }
  }

  ghost predicate SameRows(a: seq<Row>, b: seq<Row>) {
    forall r :: r in a <==> r in b
  }

  lemma SameAnswering(t1: seq<Row>, t2: seq<Row>, vendor: string, product: string)
    requires SameRows(t1, t2)
    ensures SameRows(Answering(t1, vendor, product), Answering(t2, vendor, product))
  {
    hide Key, ProductMatches, VendorMatches, MayAnswer, Candidates;
    SameNarrowing(t1, t2, vendor, product);
    SameNarrowing(t2, t1, vendor, product);
    var narrowed := VendorNarrows(t1, vendor, product);
    forall r
      ensures r in Candidates(t1, vendor, product, narrowed) <==> r in Candidates(t2, vendor, product, narrowed)
    {
      CandidateMember(t1, vendor, product, narrowed, r);
      CandidateMember(t2, vendor, product, narrowed, r);
    }
  }

  lemma SameNarrowing(t1: seq<Row>, t2: seq<Row>, vendor: string, product: string)
    requires forall r :: r in t1 ==> r in t2
    ensures VendorNarrows(t1, vendor, product) ==> VendorNarrows(t2, vendor, product)
  {
    hide ProductMatches, VendorMatches;
    if VendorNarrows(t1, vendor, product) {
      var i :| 0 <= i < |t1| && ProductMatches(t1[i], product) && VendorMatches(t1[i], vendor);
      assert t1[i] in t2;
      var j :| 0 <= j < |t2| && t2[j] == t1[i];
      assert ProductMatches(t2[j], product) && VendorMatches(t2[j], vendor);
    }
  }

  lemma SameOffsets(a: seq<Row>, b: seq<Row>)
    requires forall r :: r in a ==> r in b
    ensures OffsetsOf(a) <= OffsetsOf(b)
  {
    forall x | x in OffsetsOf(a)
      ensures x in OffsetsOf(b)
    {
      var i :| 0 <= i < |a| && a[i].readOffset == x;
      assert a[i] in b;
      var j :| 0 <= j < |b| && b[j] == a[i];
      assert b[j].readOffset == x;
    }
  }

  lemma SameUnion(a: seq<Row>, b: seq<Row>, p: Pick)
    requires SameRows(a, b)
    ensures Union(a, p) == Union(b, p)
  {
    hide Or, Union;
    UnionAbsorbsSubset(a, b, p);
    UnionAbsorbsSubset(b, a, p);
    OrLaws(Union(a, p), Union(b, p), 0);
  }

  /** Two tables with the same rows, in whatever order and however often, answer alike: verdict,
      offset, number of values, sources, flags and submission count. */
  lemma RowOrderDoesNotMatter(t1: seq<Row>, t2: seq<Row>, vendor: string, product: string,
                              hasValues: bool, hasAccuracy: bool, rc1: Rc, out1: Info, rc2: Rc, out2: Info)
    requires SameRows(t1, t2)
    requires IsAnswer(Answering(t1, vendor, product), hasValues, hasAccuracy, rc1, out1)
    requires IsAnswer(Answering(t2, vendor, product), hasValues, hasAccuracy, rc2, out2)
    ensures rc1 == rc2 && out1.readOffset == out2.readOffset && out1.nValues == out2.nValues
    ensures out1.sources == out2.sources && out1.flags == out2.flags && out1.arSubmissions == out2.arSubmissions
  {
    hide Answering, Listed, OffsetsOf, Union, Or, BestOf, SameRows;
    SameAnswering(t1, t2, vendor, product);
    var a, b := Answering(t1, vendor, product), Answering(t2, vendor, product);
    SameRowsSameSummary(a, b);
    assert OFFSET_NONE == out1.readOffset || out1.readOffset in OffsetsOf(a);
  }

  lemma SameRowsSameSummary(a: seq<Row>, b: seq<Row>)
    requires SameRows(a, b)
    ensures OffsetsOf(a) == OffsetsOf(b)
    ensures Union(a, Sources) == Union(b, Sources) && Union(a, Flags) == Union(b, Flags)
    ensures |a| == 0 <==> |b| == 0
    ensures |a| > 0 && |b| > 0 ==> BestOf(a).arSubmissions == BestOf(b).arSubmissions
    ensures |a| == 0 ==> OffsetsOf(a) == {}
  {
    hide Union, OffsetsOf;
    SameOffsets(a, b);
    SameOffsets(b, a);
    SameUnion(a, b, Sources);
    SameUnion(a, b, Flags);
    assert |b| > 0 ==> b[0] in b;
    if |a| > 0 {
      assert a[0] in b;
      BestIsMost(a);
      BestIsMost(b);
    } else {
      NoOffsets(a);
    }
  }

  lemma NoOffsets(a: seq<Row>)
    requires |a| == 0
    ensures OffsetsOf(a) == {}
  {}
}
