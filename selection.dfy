/** The bulk-edit page selection of components/StoryGenerator.tsx: a
    JavaScript `Set` of 0-based page indices, which iterates in insertion
    order and is therefore modelled as a sequence without repetitions; the
    text field that shows it as 1-based numbers; and the parser that reads a
    text such as "1, 3-5" back into a selection. */
module Selection {
  import opened Base
  import opened JsText

  /** `set.add(i)`: appended unless already present. */
  function SetAdd(sel: seq<nat>, i: nat): seq<nat> {
    if i in sel then sel else sel + [i]
  }

  /** `set.delete(i)`: the other elements keep their order. */
  function SetDelete(sel: seq<nat>, i: nat): (r: seq<nat>)
    ensures forall j :: j in r <==> j in sel && j != i
  {
    if sel == [] then []
    else if sel[0] == i then SetDelete(sel[1..], i)
    else [sel[0]] + SetDelete(sel[1..], i)
  }

  /** Adding keeps the selection free of repetitions. */
  lemma SetAddDistinct(sel: seq<nat>, i: nat)
    requires Distinct(sel)
    ensures Distinct(SetAdd(sel, i))
    ensures forall j :: j in SetAdd(sel, i) <==> j in sel || j == i
  {
  }

  /** Deleting keeps the selection free of repetitions. */
  lemma {:induction false} SetDeleteDistinct(sel: seq<nat>, i: nat)
    requires Distinct(sel)
    ensures Distinct(SetDelete(sel, i))
  {
    if sel != [] {
      assert Distinct(sel[1..]);
      SetDeleteDistinct(sel[1..], i);
      assert sel[0] !in sel[1..];
    }
  }

  /** Deleting distributes over concatenation: the remaining elements keep
      their insertion order. */
  lemma {:induction false} SetDeleteAppend(a: seq<nat>, b: seq<nat>, i: nat)
    ensures SetDelete(a + b, i) == SetDelete(a, i) + SetDelete(b, i)
  {
    if a == [] {
      assert a + b == b;
    } else {
      assert (a + b)[0] == a[0];
      assert (a + b)[1..] == a[1..] + b;
      SetDeleteAppend(a[1..], b, i);
    }
  }

  /** Deleting an element of a set without repetitions takes out exactly its
      position and keeps the others in order. */
  lemma SetDeleteAt(sel: seq<nat>, k: nat)
    requires Distinct(sel) && k < |sel|
    ensures SetDelete(sel, sel[k]) == sel[..k] + sel[k + 1..]
  {
    var i, pre, post := sel[k], sel[..k], sel[k + 1..];
    assert sel == pre + ([i] + post);
    assert i !in pre && i !in post;
    SetDeleteAppend(pre, [i] + post, i);
    SetDeleteAbsent(pre, i);
    SetDeleteFront(post, i);
  }

  lemma SetDeleteFront(post: seq<nat>, i: nat)
    requires i !in post
    ensures SetDelete([i] + post, i) == post
  {
    assert ([i] + post)[1..] == post;
    SetDeleteAbsent(post, i);
  }

  /** Deleting an element that is absent changes nothing. */
  lemma {:induction false} SetDeleteAbsent(sel: seq<nat>, i: nat)
    requires i !in sel
    ensures SetDelete(sel, i) == sel
  {
    if sel != [] {
      SetDeleteAbsent(sel[1..], i);
    }
  }

  /** `handleToggleSelectPage`: a selected page is deselected, any other page
      is added at the end. */
  function Toggle(sel: seq<nat>, i: nat): (r: seq<nat>)
    ensures forall j :: j in r <==> (j in sel <==> j != i)
    ensures i !in sel ==> r == sel + [i]
  {
    if i in sel then SetDelete(sel, i) else sel + [i]
  }

  /** Toggling keeps the selection free of repetitions, and toggling a page
      twice that was not selected gives the selection back unchanged. */
  lemma ToggleProperties(sel: seq<nat>, i: nat)
    requires Distinct(sel)
    ensures Distinct(Toggle(sel, i))
    ensures i !in sel ==> Toggle(Toggle(sel, i), i) == sel
    ensures forall k | 0 <= k < |sel| && sel[k] == i :: Toggle(sel, i) == sel[..k] + sel[k + 1..]
  {
    forall k | 0 <= k < |sel| && sel[k] == i
      ensures Toggle(sel, i) == sel[..k] + sel[k + 1..]
    {
      SetDeleteAt(sel, k);
    }
    SetDeleteDistinct(sel, i);
    if i !in sel {
      assert Toggle(sel, i) == sel + [i];
      SetDeleteAbsent(sel, i);
      SetDeleteLast(sel, i);
    }
  }

  lemma {:induction false} SetDeleteLast(sel: seq<nat>, i: nat)
    requires i !in sel
    ensures SetDelete(sel + [i], i) == sel
  {
    if sel == [] {
      assert [] + [i] == [i];
      assert [i][1..] == [];
    } else {
      assert (sel + [i])[1..] == sel[1..] + [i];
      SetDeleteLast(sel[1..], i);
    }
  }

  /** `handleSelectAll`: every page index, in page order. */
  function SelectAll(n: nat): (r: seq<nat>)
    ensures Distinct(r)
    ensures forall j: nat :: j in r <==> j < n
    ensures |r| == n && forall k | 0 <= k < n :: r[k] == k
  {
    var r := seq(n, k requires 0 <= k < n => k);
    forall j: nat
      ensures j in r <==> j < n
    {
      if j < n {
        assert r[j] == j;
      }
    }
    r
  }

  /** The 1-based page numbers of a selection, in its order. */
  function Numerals(sel: seq<nat>): (ds: seq<string>)
    ensures |ds| == |sel| && forall k | 0 <= k < |sel| :: ds[k] == Decimal(sel[k] + 1)
  {
    seq(|sel|, k requires 0 <= k < |sel| => Decimal(sel[k] + 1))
  }

  /** The text the selection field shows: the 1-based page numbers in
      selection order, separated by ", ". */
  function SelectionText(sel: seq<nat>): string {
    Join(Numerals(sel), ", ")
  }

  /** How the parser reads one comma-separated piece once it is trimmed: a
      piece holding '-' is a range whose ends are the first two '-'-separated
      parts, anything else a single number (`None` where `parseInt` gives NaN). */
  datatype Token = Range(start: Option<int>, end: Option<int>) | Number(value: Option<int>)

  function ReadPiece(piece: string): Token {
    ReadToken(Trim(piece))
  }

  /** How a trimmed piece reads. */
  function ReadToken(token: string): Token {
    if Includes(token, "-") then
      IncludesChar(token, '-');
      var bounds := Split(token, '-');
      Range(ParseInt(bounds[0]), ParseInt(bounds[1]))
    else
      Number(ParseInt(token))
  }

  /** Page number `v` (1-based) is named by a token: a range whose two ends
      both parse and enclose `v`, or a single number equal to `v`. */
  predicate Covers(t: Token, v: int) {
    match t
    case Range(start, end) => start.Some? && end.Some? && start.value <= v <= end.value
    case Number(num) => num == Some(v)
  }

  /** The tokens of the comma-separated pieces, in order. */
  function Tokens(pieces: seq<string>): (ts: seq<Token>)
    ensures |ts| == |pieces| && forall k | 0 <= k < |pieces| :: ts[k] == ReadPiece(pieces[k])
  {
    seq(|pieces|, k requires 0 <= k < |pieces| => ReadPiece(pieces[k]))
  }

  /** Some token names page number `v`. */
  predicate Named(ts: seq<Token>, v: int) {
    exists k | 0 <= k < |ts| :: Covers(ts[k], v)
  }

  /** The pages `from` to `to` (1-based, inclusive) that exist among `n`,
      added in increasing order. */
  function AddRange(acc: seq<nat>, from: int, to: int, n: nat): seq<nat>
    decreases if from <= to then to - from + 1 else 0
  {
    if from > to then acc
    else AddRange(if 0 < from <= n then SetAdd(acc, from - 1) else acc, from + 1, to, n)
  }

  /** What one token adds to the selection. */
  function AddToken(acc: seq<nat>, t: Token, n: nat): seq<nat> {
    match t
    case Range(start, end) =>
      if start.Some? && end.Some? then AddRange(acc, start.value, end.value, n) else acc
    case Number(num) =>
      if num.Some? && 0 < num.value <= n then SetAdd(acc, num.value - 1) else acc
  }

  /** The tokens, in order, added to `acc`. */
  function AddTokens(acc: seq<nat>, ts: seq<Token>, n: nat): seq<nat>
    decreases |ts|
  {
    if ts == [] then acc else AddTokens(AddToken(acc, ts[0], n), ts[1..], n)
  }

  /** `parseAndSetSelection`: the selection a text denotes for `n` pages. */
  function Parse(input: string, n: nat): seq<nat> {
    AddTokens([], Tokens(Split(input, ',')), n)
  }

  /** The parser as the source runs it: a loop over the comma-separated pieces,
      with an inner loop over each range. */
  method ParseSelection(input: string, n: nat) returns (sel: seq<nat>)
    ensures sel == Parse(input, n)
  {
    var pieces := Split(input, ',');
    ghost var ts := Tokens(pieces);
    sel := [];
    var k := 0;
    while k < |pieces|
      invariant k <= |pieces|
      invariant AddTokens(sel, ts[k..], n) == Parse(input, n)
    {
      assert ts[k..][1..] == ts[k + 1..];
      sel := AddPiece(sel, pieces[k], n);
      k := k + 1;
    }
  }

  /** The parser's loop body: one comma-separated piece read and added. */
  method AddPiece(acc: seq<nat>, piece: string, n: nat) returns (sel: seq<nat>)
    ensures sel == AddToken(acc, ReadPiece(piece), n)
  {
    var token := Trim(piece);
    if Includes(token, "-") {
      sel := AddRangeToken(acc, token, n);
    } else {
      var num := ParseInt(token);
      sel := acc;
      if num.Some? && 0 < num.value && num.value <= n {
        sel := SetAdd(sel, num.value - 1);
      }
    }
  }

  /** A trimmed piece holding '-': its first two '-'-separated parts are
      parsed, and the range is added when both parse. */
  method AddRangeToken(acc: seq<nat>, token: string, n: nat) returns (sel: seq<nat>)
    requires Includes(token, "-")
    ensures sel == AddToken(acc, ReadToken(token), n)
  {
    IncludesChar(token, '-');
    var bounds := Split(token, '-');
    var start, end := ParseInt(bounds[0]), ParseInt(bounds[1]);
    sel := acc;
    if start.Some? && end.Some? {
      sel := AddRangeLoop(sel, start.value, end.value, n);
    }
  }

  /** The inner loop of the parser: each page number from `from` to `to` that
      exists is added. */
  method AddRangeLoop(acc: seq<nat>, from: int, to: int, n: nat) returns (sel: seq<nat>)
    ensures sel == AddRange(acc, from, to, n)
  {
    sel := acc;
    var i := from;
    while i <= to
      invariant AddRange(sel, i, to, n) == AddRange(acc, from, to, n)
      decreases if i <= to then to - i + 1 else 0
    {
      if 0 < i && i <= n {
        sel := SetAdd(sel, i - 1);
      }
      i := i + 1;
    }
  }

  /** 2^53, the first integer past which a double no longer holds every
      integer: the source's numbers are doubles, the model's are unbounded. */
  const ExactLimit: int := 0x20_0000_0000_0000

  /** `i++` on a double holding the integer `i`, for |i| <= 2^53: below the
      limit the sum is exact; at 2^53 the sum lies halfway between 2^53 and
      2^53 + 2 and rounds to the even one, 2^53 itself. */
  function DoubleIncrement(i: int): (j: int)
    requires -ExactLimit <= i <= ExactLimit
    ensures -ExactLimit <= j <= ExactLimit
    ensures i < ExactLimit ==> j == i + 1
    ensures i == ExactLimit ==> j == i
  {
    if i < ExactLimit then i + 1 else i
  }

  /** The range loop's counter after `k` passes, counted in doubles: it
      climbs one by one up to 2^53 and stays there. */
  function CounterAfter(from: int, k: nat): (i: int)
    requires -ExactLimit <= from <= ExactLimit
    ensures i == if from + k <= ExactLimit then from + k else ExactLimit
  {
    if k == 0 then from else DoubleIncrement(CounterAfter(from, k - 1))
  }

  /** The range loop as the source runs it: when the range's end is 2^53 or
      more, the guard `i <= end` still holds after any number of passes, so
      the loop never ends and the selection is never set. */
  lemma RangeLoopNeverEnds(from: int, to: int, k: nat)
    requires -ExactLimit <= from <= ExactLimit <= to
    ensures CounterAfter(from, k) <= to
    ensures k >= ExactLimit - from ==> CounterAfter(from, k + 1) == CounterAfter(from, k)
  {
  }

  /** The range loop with its bounds first clipped to the existing pages: the
      counter stays below 2^53, so its increments are exact and the loop ends
      after at most `n` passes, whatever numbers the text holds; it adds the
      same pages as the loop over the whole range. */
  method AddRangeClipped(acc: seq<nat>, from: int, to: int, n: nat) returns (sel: seq<nat>)
    requires n < ExactLimit
    ensures sel == AddRange(acc, from, to, n)
  {
    var lo := if from < 1 then 1 else from;
    var hi := if to < n then to else n;
    AddRangeClip(acc, from, to, n);
    sel := acc;
    var i := lo;
    while i <= hi
      invariant 1 <= i
      invariant AddRange(sel, i, hi, n) == AddRange(acc, from, to, n)
      decreases hi - i
    {
      sel := SetAdd(sel, i - 1);
      i := DoubleIncrement(i);
    }
  }

  /** Clipping a range to the existing pages adds the same pages. */
  lemma AddRangeClip(acc: seq<nat>, from: int, to: int, n: nat)
    ensures AddRange(acc, from, to, n) ==
            AddRange(acc, if from < 1 then 1 else from, if to < n then to else n, n)
  {
    var lo := if from < 1 then 1 else from;
    if from < 1 {
      AddRangeBelow(acc, from, to, n);
    }
    if to > n {
      AddRangeCapped(acc, lo, to, n);
    }
  }

  /** The numbers of a range below 1 add nothing. */
  lemma {:induction false} AddRangeBelow(acc: seq<nat>, from: int, to: int, n: nat)
    requires from < 1
    ensures AddRange(acc, from, to, n) == AddRange(acc, 1, to, n)
    decreases 1 - from
  {
    if from <= to && from + 1 < 1 {
      AddRangeBelow(acc, from + 1, to, n);
    }
  }

  /** The numbers of a range past the page count add nothing. */
  lemma {:induction false} AddRangeBeyond(acc: seq<nat>, from: int, to: int, n: nat)
    requires from > n
    ensures AddRange(acc, from, to, n) == acc
    decreases if from <= to then to - from + 1 else 0
  {
    if from <= to {
      AddRangeBeyond(acc, from + 1, to, n);
    }
  }

  /** A range ending past the page count adds what it adds up to the last page. */
  lemma {:induction false} AddRangeCapped(acc: seq<nat>, from: int, to: int, n: nat)
    requires to > n
    ensures AddRange(acc, from, to, n) == AddRange(acc, from, n, n)
    decreases if from <= to then to - from + 1 else 0
  {
    if from > n {
      AddRangeBeyond(acc, from, to, n);
    } else {
      AddRangeCapped(if 0 < from then SetAdd(acc, from - 1) else acc, from + 1, to, n);
    }
  }

  /** What a range adds: exactly the existing pages it encloses. */
  lemma {:induction false} AddRangeMembers(acc: seq<nat>, from: int, to: int, n: nat)
    requires Distinct(acc)
    ensures Distinct(AddRange(acc, from, to, n))
    ensures forall x: nat :: x in AddRange(acc, from, to, n) <==> x in acc || (x < n && from <= x + 1 <= to)
    decreases if from <= to then to - from + 1 else 0
  {
    if from <= to {
      var next := if 0 < from <= n then SetAdd(acc, from - 1) else acc;
      if 0 < from {
        SetAddDistinct(acc, from - 1);
      }
      AddRangeMembers(next, from + 1, to, n);
    }
  }

  /** What one token adds: exactly the existing pages it covers. */
  lemma AddTokenMembers(acc: seq<nat>, t: Token, n: nat)
    requires Distinct(acc)
    ensures Distinct(AddToken(acc, t, n))
    ensures forall x: nat :: x in AddToken(acc, t, n) <==> x in acc || (x < n && Covers(t, x + 1))
  {
    match t
    case Range(start, end) =>
      if start.Some? && end.Some? {
        AddRangeMembers(acc, start.value, end.value, n);
      }
    case Number(num) =>
      if num.Some? && 0 < num.value <= n {
        SetAddDistinct(acc, num.value - 1);
      }
  }

  lemma {:induction false} AddTokensMembers(acc: seq<nat>, ts: seq<Token>, n: nat)
    requires Distinct(acc)
    ensures Distinct(AddTokens(acc, ts, n))
    ensures forall x: nat :: x in AddTokens(acc, ts, n) <==> x in acc || (x < n && Named(ts, x + 1))
    decreases |ts|
  {
    if ts != [] {
      AddTokenMembers(acc, ts[0], n);
      AddTokensMembers(AddToken(acc, ts[0], n), ts[1..], n);
      forall v
        ensures Named(ts, v) <==> Covers(ts[0], v) || Named(ts[1..], v)
      {
        if Named(ts, v) {
          var k :| 0 <= k < |ts| && Covers(ts[k], v);
          if k > 0 {
            assert ts[1..][k - 1] == ts[k];
          }
        }
        if Named(ts[1..], v) {
          var k :| 0 <= k < |ts[1..]| && Covers(ts[1..][k], v);
          assert ts[k + 1] == ts[1..][k];
        }
      }
    }
  }

  /** The parsed selection names only existing pages, names none twice, and
      names exactly the pages some comma-separated piece covers: a number or a
      range that is out of bounds or does not parse contributes nothing. */
  lemma ParseMembers(input: string, n: nat)
    ensures Distinct(Parse(input, n))
    ensures forall x | x in Parse(input, n) :: x < n
    ensures forall x: nat :: x in Parse(input, n) <==> x < n && Named(Tokens(Split(input, ',')), x + 1)
  {
    var ts := Tokens(Split(input, ','));
    assert Parse(input, n) == AddTokens([], ts, n);
    AddTokensMembers([], ts, n);
  }

  /** A piece that is a run of digits, with or without the space that
      follows a comma, reads as the number the digits denote. */
  lemma ReadDigitsPiece(d: string)
    requires d != [] && AllDigits(d)
    ensures ReadPiece(d) == Number(Some(DecimalValue(d)))
    ensures ReadPiece(" " + d) == Number(Some(DecimalValue(d)))
  {
    TrimDigits(d);
    NoDash(d);
    ParseDigits(d);
  }

  /** A piece "a-b" of two runs of digits, with or without a leading space,
      reads as the range from a to b. */
  lemma ReadRangePiece(a: string, b: string)
    requires a != [] && AllDigits(a) && b != [] && AllDigits(b)
    ensures ReadPiece(" " + (a + "-" + b)) == Range(Some(DecimalValue(a)), Some(DecimalValue(b)))
  {
    var t := a + "-" + b;
    TrimRange(a, b);
    SplitRange(a, b);
    ParseDigits(a);
    ParseDigits(b);
  }

  lemma TrimRange(a: string, b: string)
    requires a != [] && AllDigits(a) && b != [] && AllDigits(b)
    ensures Trim(" " + (a + "-" + b)) == a + "-" + b
  {
    var t := a + "-" + b;
    assert !IsSpace(t[0]) && !IsSpace(t[|t| - 1]);
    SpaceBlank();
    TrimPadded(" ", t, "");
    assert " " + t + "" == " " + t;
  }

  lemma SplitRange(a: string, b: string)
    requires AllDigits(a) && AllDigits(b)
    ensures Includes(a + "-" + b, "-")
    ensures Split(a + "-" + b, '-') == [a, b]
  {
    var t := a + "-" + b;
    IncludesChar(t, '-');
    assert t[|a|] == '-';
    NoDash(a);
    NoDash(b);
    SplitAfter(a, '-', b);
    assert t == a + ['-'] + b;
    assert Split(b, '-') == [b];
  }

  /** Digits are not white space: trimming leaves them, and the space in
      front of them, as expected. */
  lemma TrimDigits(d: string)
    requires d != [] && AllDigits(d)
    ensures Trim(d) == d && Trim(" " + d) == d
  {
    assert !IsSpace(d[0]) && !IsSpace(d[|d| - 1]);
    SpaceBlank();
    TrimPadded("", d, "");
    assert "" + d + "" == d;
    TrimPadded(" ", d, "");
    assert " " + d + "" == " " + d;
  }

  /** A run of digits holds no '-'. */
  lemma NoDash(d: string)
    requires AllDigits(d)
    ensures '-' !in d && !Includes(d, "-")
  {
    IncludesChar(d, '-');
    assert forall k | 0 <= k < |d| :: IsDigit(d[k]);
  }

  /** A number written by the selection field reads back as that number,
      with or without the space that follows a comma. */
  lemma ReadNumeral(v: nat)
    ensures ReadPiece(Decimal(v)) == Number(Some(v))
    ensures ReadPiece(" " + Decimal(v)) == Number(Some(v))
  {
    ReadDigitsPiece(Decimal(v));
    DecimalValueOf(v);
  }

  /** Every piece behind its comma's space. */
  function Spaced(ds: seq<string>): (r: seq<string>)
    ensures |r| == |ds| && forall k | 0 <= k < |ds| :: r[k] == " " + ds[k]
  {
    seq(|ds|, k requires 0 <= k < |ds| => " " + ds[k])
  }

  /** Joining with ", " is joining with "," after putting a space in front of
      every piece but the first. */
  lemma JoinCommaSpace(x: string, ds: seq<string>)
    ensures Join([x] + ds, ", ") == Join([x] + Spaced(ds), [','])
  {
    if ds != [] {
      assert ([x] + ds)[1..] == ds;
      assert ([x] + Spaced(ds))[1..] == Spaced(ds);
      JoinSpaced(ds);
      assert x + ", " + Join(ds, ", ") == x + [','] + (" " + Join(ds, ", "));
    }
  }

  /** Joining the space-prefixed pieces with "," is a space and then the
      pieces joined with ", ". */
  lemma {:induction false} JoinSpaced(ds: seq<string>)
    requires ds != []
    ensures Join(Spaced(ds), [',']) == " " + Join(ds, ", ")
    decreases |ds|
  {
    if |ds| > 1 {
      JoinSpaced(ds[1..]);
      assert Spaced(ds)[1..] == Spaced(ds[1..]);
      var rest := Join(ds[1..], ", ");
      assert Join(Spaced(ds), [',']) == " " + ds[0] + [','] + (" " + rest);
      assert " " + ds[0] + [','] + (" " + rest) == " " + (ds[0] + ", " + rest);
    }
  }

  /** The tokens the parser reads from the selection field's text. */
  function NumberTokens(sel: seq<nat>): (ts: seq<Token>)
    ensures |ts| == |sel| && forall k | 0 <= k < |sel| :: ts[k] == Number(Some(sel[k] + 1))
  {
    seq(|sel|, k requires 0 <= k < |sel| => Number(Some(sel[k] + 1)))
  }

  /** The selection field's text splits into one piece per selected page, and
      each piece reads as that page's number. */
  lemma TextTokens(sel: seq<nat>)
    requires sel != []
    ensures Tokens(Split(SelectionText(sel), ',')) == NumberTokens(sel)
  {
    var ds := Numerals(sel);
    var pieces := [ds[0]] + Spaced(ds[1..]);
    TextPieces(sel);
    forall k | 0 <= k < |sel|
      ensures ReadPiece(pieces[k]) == Number(Some(sel[k] + 1))
    {
      PieceReads(sel, k);
    }
    PiecesRead(sel, pieces);
  }

  /** The piece is the numeral of `v`, possibly behind a space. */
  ghost predicate Numeral(p: string, v: nat) {
    p == Decimal(v) || p == " " + Decimal(v)
  }

  lemma PieceReads(sel: seq<nat>, k: nat)
    requires k < |sel|
    ensures var ds := Numerals(sel);
      ReadPiece(([ds[0]] + Spaced(ds[1..]))[k]) == Number(Some(sel[k] + 1))
  {
    var ds := Numerals(sel);
    var p := ([ds[0]] + Spaced(ds[1..]))[k];
    assert Numeral(p, sel[k] + 1);
    NumeralReads(p, sel[k] + 1);
  }

  lemma PiecesRead(sel: seq<nat>, pieces: seq<string>)
    requires |pieces| == |sel|
    requires forall k | 0 <= k < |sel| :: ReadPiece(pieces[k]) == Number(Some(sel[k] + 1))
    ensures Tokens(pieces) == NumberTokens(sel)
  {
  }

  lemma NumeralReads(p: string, v: nat)
    requires Numeral(p, v)
    ensures ReadPiece(p) == Number(Some(v))
  {
    ReadNumeral(v);
  }

  /** The pieces of the selection field's text: the first page number, then
      every other one behind its space. */
  lemma TextPieces(sel: seq<nat>)
    requires sel != []
    ensures var ds := Numerals(sel);
      Split(SelectionText(sel), ',') == [ds[0]] + Spaced(ds[1..])
  {
    var ds := Numerals(sel);
    var pieces := [ds[0]] + Spaced(ds[1..]);
    assert ds == [ds[0]] + ds[1..];
    JoinCommaSpace(ds[0], ds[1..]);
    assert [ds[0]] + ds[1..] == ds;
    forall k | 0 <= k < |pieces|
      ensures ',' !in pieces[k]
    {
      var d := Decimal(sel[k] + 1);
      NoComma(d);
      if k > 0 {
        assert pieces[k] == " " + d;
      }
    }
    SplitJoin(pieces, ',');
  }

  /** A run of digits holds no ','. */
  lemma NoComma(d: string)
    requires AllDigits(d)
    ensures ',' !in d
  {
    assert forall k | 0 <= k < |d| :: IsDigit(d[k]);
  }

  /** Reading page numbers that are new and exist appends their pages. */
  lemma {:induction false} AddNumbers(acc: seq<nat>, sel: seq<nat>, n: nat)
    requires Distinct(sel)
    requires forall x | x in sel :: x !in acc && x < n
    ensures AddTokens(acc, NumberTokens(sel), n) == acc + sel
    decreases |sel|
  {
    if sel != [] {
      var next := acc + [sel[0]];
      assert AddTokens(acc, NumberTokens(sel), n) == AddTokens(next, NumberTokens(sel[1..]), n) by {
        assert sel[0] in sel;
        assert AddToken(acc, NumberTokens(sel)[0], n) == next;
        assert NumberTokens(sel)[1..] == NumberTokens(sel[1..]);
      }
      assert forall x | x in sel[1..] :: x in sel && x != sel[0];
      AddNumbers(next, sel[1..], n);
      assert acc + sel == next + sel[1..];
    }
  }

  /** A selection of existing pages, written out by the selection field and
      read back by the parser, is the same selection in the same order. */
  lemma SelectionTextRoundTrip(sel: seq<nat>, n: nat)
    requires Distinct(sel)
    requires forall x | x in sel :: x < n
    ensures Parse(SelectionText(sel), n) == sel
  {
    if sel == [] {
      EmptyTextTokens();
      assert SelectionText(sel) == [];
      assert [Number(None)][1..] == [];
    } else {
      TextTokens(sel);
      AddNumbers([], sel, n);
      assert [] + sel == sel;
    }
  }

  /** A text "x, a-b" of digit runs reads as the number x and the range
      from a to b. */
  lemma NumberAndRangeTokens(x: string, a: string, b: string)
    requires x != [] && AllDigits(x) && a != [] && AllDigits(a) && b != [] && AllDigits(b)
    ensures var ts := Tokens(Split(x + ", " + a + "-" + b, ','));
      && |ts| == 2
      && ts[0] == Number(Some(DecimalValue(x)))
      && ts[1] == Range(Some(DecimalValue(a)), Some(DecimalValue(b)))
  {
    NumberAndRangePieces(x, a, b);
    ReadDigitsPiece(x);
    ReadRangePiece(a, b);
  }

  lemma NumberAndRangePieces(x: string, a: string, b: string)
    requires AllDigits(x) && AllDigits(a) && AllDigits(b)
    ensures Split(x + ", " + a + "-" + b, ',') == [x, " " + (a + "-" + b)]
  {
    var range := " " + (a + "-" + b);
    assert x + ", " + a + "-" + b == x + [','] + range;
    NoComma(x);
    NoComma(a);
    NoComma(b);
    assert ',' !in range by {
      assert range == [' '] + a + ['-'] + b;
    }
    SplitAfter(x, ',', range);
  }

  /** On six pages, "1, 3-5" (any digit runs x, a, b that denote 1, 3 and 5)
      selects the first, third, fourth and fifth pages in that order, and
      "9" selects nothing. */
  lemma ParseExamples(x: string, a: string, b: string)
    requires x != [] && AllDigits(x) && a != [] && AllDigits(a) && b != [] && AllDigits(b)
    requires DecimalValue(x) == 1 && DecimalValue(a) == 3 && DecimalValue(b) == 5
    ensures Parse(x + ", " + a + "-" + b, 6) == [0, 2, 3, 4]
    ensures Parse("9", 6) == []
  {
    NumberAndRangeTokens(x, a, b);
    ExampleAdded(Tokens(Split(x + ", " + a + "-" + b, ',')));
    NineSelectsNothing();
  }

  lemma NineSelectsNothing()
    ensures Parse("9", 6) == []
  {
  }

  lemma ExampleAdded(ts: seq<Token>)
    requires |ts| == 2 && ts[0] == Number(Some(1)) && ts[1] == Range(Some(3), Some(5))
    ensures AddTokens([], ts, 6) == [0, 2, 3, 4]
  {
    assert AddToken([], ts[0], 6) == [0];
    assert AddRange([0], 3, 5, 6) == [0, 2, 3, 4] by {
      assert AddRange([0], 3, 5, 6) == AddRange([0, 2], 4, 5, 6);
      assert AddRange([0, 2], 4, 5, 6) == AddRange([0, 2, 3], 5, 5, 6);
      assert AddRange([0, 2, 3], 5, 5, 6) == AddRange([0, 2, 3, 4], 6, 5, 6);
    }
    assert AddTokens([], ts, 6) == AddTokens([0], ts[1..], 6);
    assert ts[1..][0] == ts[1] && ts[1..][1..] == [];
    assert AddTokens([0], ts[1..], 6) == AddTokens([0, 2, 3, 4], [], 6);
  }

  /** The digit runs of "1, 3-5". */
  lemma ExampleDigits()
    ensures "1" + ", " + "3" + "-" + "5" == "1, 3-5"
    ensures AllDigits("1") && DecimalValue("1") == 1
    ensures AllDigits("3") && DecimalValue("3") == 3
    ensures AllDigits("5") && DecimalValue("5") == 5
  {
  }

  /** An empty selection field is one piece that does not parse. */
  lemma EmptyTextTokens()
    ensures Tokens(Split([], ',')) == [Number(None)]
  {
    assert Split([], ',') == [[]];
    assert Trim([]) == [];
    IncludesChar([], '-');
    assert ReadPiece([]) == Number(None);
  }
}
