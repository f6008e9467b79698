/** The `--range` option of the converter: `fix_option_range` expands a
    comma-separated list of items (`n`, `a-b`, `a-`, `-b`) into ebook
    numbers; `pretty_print_list` prints a list of ebook numbers back with
    runs of three or more consecutive numbers shortened to `first-last`; and
    `grouper` cuts the list into fixed-size batches. */
module RangeOptions {
  import opened Strings
  import opened Numerals
  import opened Optional

  /** `a..b` inclusive, as `range(a, b + 1)` gives it. */
  function Interval(a: int, b: int): (r: seq<int>)
    requires a <= b
    ensures |r| == b - a + 1 && forall i :: 0 <= i < |r| ==> r[i] == a + i
  {
    seq(b - a + 1, i => a + i)
  }

  /** `range(a, b + 1)` holds exactly the numbers from a to b, counting up
      from a to b, each once. */
  lemma IntervalMembers(a: int, b: int)
    requires a <= b
    ensures forall x :: x in Interval(a, b) <==> a <= x <= b
    ensures forall i, j :: 0 <= i < j < |Interval(a, b)| ==> Interval(a, b)[i] < Interval(a, b)[j]
    ensures Interval(a, b)[0] == a && Interval(a, b)[|Interval(a, b)| - 1] == b
  {
    var r := Interval(a, b);
    forall x | a <= x <= b
      ensures x in r
    {
      assert r[x - a] == x;
    }
  }

  function Flatten<T>(groups: seq<seq<T>>): seq<T> {
    if groups == [] then [] else groups[0] + Flatten(groups[1..])
  }

  lemma SliceSnoc<T>(s: seq<T>, k: nat)
    requires 0 < k <= |s|
    ensures s[..k] == s[..k - 1] + [s[k - 1]]
  {
  }

  lemma {:induction false} FlattenAppend<T>(a: seq<seq<T>>, b: seq<seq<T>>)
    ensures Flatten(a + b) == Flatten(a) + Flatten(b)
  {
    if a != [] {
      assert a + b != [] && (a + b)[0] == a[0] && (a + b)[1..] == a[1..] + b;
      FlattenAppend(a[1..], b);
      calc {
        Flatten(a + b);
        a[0] + Flatten(a[1..] + b);
        a[0] + (Flatten(a[1..]) + Flatten(b));
        (a[0] + Flatten(a[1..])) + Flatten(b);
      }
    } else {
      assert a + b == b;
    }
  }

  /*** fix_option_range ***/

  /** One comma-separated item; None where the source logs "error in range
      item" and goes on with the next one. */
  function ParseItem(value: string, lastEbook: int): (r: Option<seq<int>>)
    ensures r.Some? ==> |Split(value, '-')| <= 2
  {
    var parts := Split(value, '-');
    if |parts| == 2 then
      var lo := if parts[0] == "" then Some(1) else ParseInt(parts[0]);
      var hi := if parts[1] == "" then Some(lastEbook) else ParseInt(parts[1]);
      if lo.None? || hi.None? || lo.value > hi.value then None
      else Some(Interval(lo.value, hi.value))
    else if |parts| == 1 then
      match ParseInt(value)
      case None => None
      case Some(n) => Some([n])
    else None
  }

  /** What one item adds to the result: nothing when it is in error. */
  function ItemValues(value: string, lastEbook: int): seq<int> {
    match ParseItem(value, lastEbook)
    case None => []
    case Some(nos) => nos
  }

  /** The values of the items, item by item, in item order. */
  function Concat(items: seq<string>, f: string -> seq<int>): seq<int> {
    if items == [] then [] else f(items[0]) + Concat(items[1..], f)
  }

  function Expand(items: seq<string>, lastEbook: int): seq<int> {
    Concat(items, v => ItemValues(v, lastEbook))
  }

  /** The list `fix_option_range` stores for a non-empty option text. */
  function RangeSpec(text: string, lastEbook: int): seq<int> {
    Expand(Split(text, ','), lastEbook)
  }

  lemma {:induction false} ConcatAppend(a: seq<string>, b: seq<string>, f: string -> seq<int>)
    ensures Concat(a + b, f) == Concat(a, f) + Concat(b, f)
  {
    if a == [] {
      assert a + b == b;
    } else {
      assert (a + b)[0] == a[0] && (a + b)[1..] == a[1..] + b;
      ConcatAppend(a[1..], b, f);
    }
  }

  lemma ExpandAppend(a: seq<string>, b: seq<string>, lastEbook: int)
    ensures Expand(a + b, lastEbook) == Expand(a, lastEbook) + Expand(b, lastEbook)
  {
    ConcatAppend(a, b, v => ItemValues(v, lastEbook));
  }

  /** The option as argparse leaves it (a string, empty by default) or as
      `fix_option_range` leaves it (a list of ebook numbers). */
  datatype RangeValue = Text(spec: string) | Ebooks(nos: seq<int>)

  class Options {
    var range: RangeValue

    constructor (range: RangeValue)
      ensures this.range == range
    {
      this.range := range;
    }

    /** `fix_option_range(options, last_ebook)`: an empty option is left as
        it is; otherwise it becomes the expansion of its items. */
    method FixOptionRange(lastEbook: int)
      requires range.Text?
      modifies this
      ensures old(range.spec) == "" ==> range == old(range)
      ensures old(range.spec) != "" ==> range == Ebooks(RangeSpec(old(range.spec), lastEbook))
    {
      if range.spec == "" {
        return;
      }
      var res: seq<int> := [];
      var values := Split(range.spec, ',');
      for k := 0 to |values|
        invariant res == Expand(values[..k], lastEbook)
      {
        ExpandStep(values, k, lastEbook);
        res := res + ItemValues(values[k], lastEbook);
      }
      assert values[..|values|] == values;
      range := Ebooks(res);
    }
  }

  lemma ExpandStep(values: seq<string>, k: nat, lastEbook: int)
    requires k < |values|
    ensures Expand(values[..k + 1], lastEbook) == Expand(values[..k], lastEbook) + ItemValues(values[k], lastEbook)
  {
    ConcatStep(values, k, v => ItemValues(v, lastEbook));
  }

  lemma ConcatStep(values: seq<string>, k: nat, f: string -> seq<int>)
    requires k < |values|
    ensures Concat(values[..k + 1], f) == Concat(values[..k], f) + f(values[k])
  {
    ConcatAppend(values[..k], [values[k]], f);
    assert values[..k + 1] == values[..k] + [values[k]];
    assert [values[k]][1..] == [];
    assert Concat([values[k]], f) == f(values[k]) + Concat([], f);
  }

  lemma NoDashInDigits(s: string)
    requires AllDigits(s)
    ensures !HasChar(s, '-') && !HasChar(s, ',') && !HasChar(s, ' ')
  {
  }

  /** `a-b` with decimal bounds expands to `a..b`, or to nothing when reversed. */
  lemma ClosedItem(a: nat, b: nat, lastEbook: int)
    ensures ParseItem(NatToString(a) + "-" + NatToString(b), lastEbook)
      == if a <= b then Some(Interval(a, b)) else None
  {
    NoDashInDigits(NatToString(a));
    NoDashInDigits(NatToString(b));
    SplitAppend(NatToString(a), NatToString(b), '-');
    SplitNoSep(NatToString(b), '-');
    ParseNatString(a);
    ParseNatString(b);
  }

  /** `-b` starts at ebook 1. */
  lemma OpenStartItem(b: nat, lastEbook: int)
    ensures ParseItem("-" + NatToString(b), lastEbook)
      == if 1 <= b then Some(Interval(1, b)) else None
  {
    var d := NatToString(b);
    NoDashInDigits(d);
    assert "-" + d == "" + ['-'] + d;
    SplitAppend("", d, '-');
    SplitNoSep(d, '-');
    assert Split("-" + d, '-') == ["", d];
    ParseNatString(b);
  }

  /** `a-` ends at the last ebook. */
  lemma OpenEndItem(a: nat, lastEbook: int)
    ensures ParseItem(NatToString(a) + "-", lastEbook)
      == if a <= lastEbook then Some(Interval(a, lastEbook)) else None
  {
    NoDashInDigits(NatToString(a));
    assert NatToString(a) + "-" == NatToString(a) + ['-'] + "";
    SplitAppend(NatToString(a), "", '-');
    SplitNoSep("", '-');
    ParseNatString(a);
  }

  /** A plain number is that one ebook; a negative number splits at its sign
      and reads as the range from 1 to its magnitude. */
  lemma SingleItem(n: int, lastEbook: int)
    ensures n >= 0 ==> ParseItem(IntToString(n), lastEbook) == Some([n])
    ensures n < 0 ==> ParseItem(IntToString(n), lastEbook) == Some(Interval(1, -n))
  {
    if n >= 0 {
      NoDashInDigits(NatToString(n));
      SplitNoSep(NatToString(n), '-');
      ParseNatString(n);
    } else {
      OpenStartItem(-n, lastEbook);
    }
  }

  /** An item with two or more dashes is dropped. */
  lemma TwoDashesDropped(x: string, y: string, z: string, lastEbook: int)
    requires !HasChar(x, '-') && !HasChar(y, '-')
    ensures ParseItem(x + "-" + y + "-" + z, lastEbook) == None
  {
    assert x + "-" + y + "-" + z == x + ['-'] + (y + ['-'] + z);
    SplitAppend(x, y + ['-'] + z, '-');
    SplitAppend(y, z, '-');
  }

  /** Items are expanded independently and their numbers kept in item order. */
  lemma RangeSpecInOrder(items: seq<string>, lastEbook: int)
    requires items != []
    requires forall k :: 0 <= k < |items| ==> !HasChar(items[k], ',')
    ensures RangeSpec(Join(",", items), lastEbook) == Expand(items, lastEbook)
  {
    SplitJoin(items, ',');
  }

  /*** pretty_print_list ***/

  predicate Consecutive(g: seq<int>) {
    forall i :: 0 <= i < |g| - 1 ==> g[i + 1] == g[i] + 1
  }

  /** `itertools.groupby` on `index - value`: consecutive numbers share a
      key, so each group is a run of numbers counting up by one. */
  function Runs(l: seq<int>): (r: seq<seq<int>>)
    ensures forall k :: 0 <= k < |r| ==> r[k] != []
    ensures l != [] ==> r != [] && r[0][0] == l[0]
  {
    if l == [] then []
    else
      var rest := Runs(l[1..]);
      if rest != [] && rest[0][0] == l[0] + 1 then [[l[0]] + rest[0]] + rest[1..]
      else [[l[0]]] + rest
  }

  /** The groups are the list cut into maximal runs of consecutive numbers. */
  lemma RunsAreMaximalRuns(l: seq<int>)
    ensures Flatten(Runs(l)) == l
    ensures forall k :: 0 <= k < |Runs(l)| ==> Consecutive(Runs(l)[k])
    ensures forall k :: 0 <= k < |Runs(l)| - 1 ==> Runs(l)[k + 1][0] != Runs(l)[k][|Runs(l)[k]| - 1] + 1
  {
    RunsFlatten(l);
    RunsConsecutive(l);
    RunsMaximal(l);
  }

  lemma {:induction false} RunsFlatten(l: seq<int>)
    ensures Flatten(Runs(l)) == l
  {
    if l != [] {
      var rest := Runs(l[1..]);
      RunsFlatten(l[1..]);
      var r := Runs(l);
      assert l == [l[0]] + l[1..];
      if rest != [] && rest[0][0] == l[0] + 1 {
        assert r[1..] == rest[1..];
        assert Flatten(rest) == rest[0] + Flatten(rest[1..]);
      } else {
        assert r[1..] == rest;
      }
    }
  }

  lemma {:induction false} RunsConsecutive(l: seq<int>)
    ensures forall k :: 0 <= k < |Runs(l)| ==> Consecutive(Runs(l)[k])
  {
    if l != [] {
      var rest := Runs(l[1..]);
      RunsConsecutive(l[1..]);
      var r := Runs(l);
      if rest != [] && rest[0][0] == l[0] + 1 {
        assert r[0] == [l[0]] + rest[0];
        assert forall k :: 1 <= k < |r| ==> r[k] == rest[k];
      } else {
        assert forall k :: 1 <= k < |r| ==> r[k] == rest[k - 1];
      }
    }
  }

  lemma {:induction false} RunsMaximal(l: seq<int>)
    ensures forall k :: 0 <= k < |Runs(l)| - 1 ==> Runs(l)[k + 1][0] != Runs(l)[k][|Runs(l)[k]| - 1] + 1
  {
    if l != [] {
      var rest := Runs(l[1..]);
      RunsMaximal(l[1..]);
      var r := Runs(l);
      if rest != [] && rest[0][0] == l[0] + 1 {
        assert r[0] == [l[0]] + rest[0];
        assert forall k :: 1 <= k < |r| ==> r[k] == rest[k];
      } else {
        assert forall k :: 1 <= k < |r| ==> r[k] == rest[k - 1];
      }
    }
  }

  lemma {:induction false} RunsMembers(l: seq<int>)
    ensures forall k, i :: 0 <= k < |Runs(l)| && 0 <= i < |Runs(l)[k]| ==> Runs(l)[k][i] in l
  {
    if l != [] {
      RunsMembers(l[1..]);
    }
  }

  /** `[str(n) for n in g]` */
  function Decimals(g: seq<int>): (r: seq<string>)
    ensures |r| == |g| && forall i :: 0 <= i < |g| ==> r[i] == IntToString(g[i])
  {
    seq(|g|, i requires 0 <= i < |g| => IntToString(g[i]))
  }

  /** Each printed number reads back as the number it came from. */
  lemma DecimalsReadBack(g: seq<int>)
    ensures forall i :: 0 <= i < |g| ==> ParseInt(Decimals(g)[i]) == Some(g[i])
  {
    forall i | 0 <= i < |g|
      ensures ParseInt(Decimals(g)[i]) == Some(g[i])
    {
      ParseIntOfString(g[i]);
    }
  }

  /** The printed items for one run: its numbers when it has at most two,
      else `first-last`. */
  function RunPieces(g: seq<int>): (r: seq<string>)
    requires g != []
  {
    var subrange := Decimals(g);
    if |subrange| <= 2 then subrange else [subrange[0] + "-" + subrange[|subrange| - 1]]
  }

  /** The printed items of the first `k` runs. */
  function Pieces(runs: seq<seq<int>>, k: nat): seq<string>
    requires k <= |runs| && forall j :: 0 <= j < |runs| ==> runs[j] != []
  {
    if k == 0 then [] else Pieces(runs, k - 1) + RunPieces(runs[k - 1])
  }

  /** The items `pretty_print_list` joins with spaces. */
  function PrettyPieces(l: seq<int>): seq<string> {
    Pieces(Runs(l), |Runs(l)|)
  }

  /** `pretty_print_list(l)` */
  method PrettyPrintList(l: seq<int>) returns (s: string)
    ensures s == Join(" ", PrettyPieces(l))
  {
    var runs := Runs(l);
    var result := RunsPieces(runs);
    s := Join(" ", result);
  }

  /** The loop of `pretty_print_list` over the runs. */
  method RunsPieces(runs: seq<seq<int>>) returns (result: seq<string>)
    requires forall j :: 0 <= j < |runs| ==> runs[j] != []
    ensures result == Pieces(runs, |runs|)
  {
    result := [];
    for k := 0 to |runs|
      invariant result == Pieces(runs, k)
    {
      var items := RunItems(runs[k]);
      result := result + items;
    }
  }

  /** The loop body of `pretty_print_list` for one run. */
  method RunItems(group: seq<int>) returns (items: seq<string>)
    requires group != []
    ensures items == RunPieces(group)
  {
    var subrange := Decimals(group);
    if |subrange| <= 2 {
      items := subrange;
    } else {
      items := [subrange[0] + "-" + subrange[|subrange| - 1]];
    }
  }

  /** A run of consecutive numbers is the interval from its first to its last. */
  lemma {:induction false} ConsecutiveIsInterval(g: seq<int>)
    requires g != [] && Consecutive(g)
    ensures g[|g| - 1] == g[0] + |g| - 1
    ensures g == Interval(g[0], g[|g| - 1])
    decreases |g|
  {
    if |g| > 1 {
      var h := g[..|g| - 1];
      assert Consecutive(h);
      ConsecutiveIsInterval(h);
      assert g == h + [g[|g| - 1]];
    }
  }

  lemma ExpandSingle(x: string, lastEbook: int)
    ensures Expand([x], lastEbook) == ItemValues(x, lastEbook)
  {
    assert [x][1..] == [];
    assert Expand([x], lastEbook) == ItemValues(x, lastEbook) + Expand([], lastEbook);
  }

  /** Reading back the items printed for one run gives the run. */
  lemma RunPiecesExpand(g: seq<int>, lastEbook: int)
    requires g != [] && Consecutive(g)
    requires forall i :: 0 <= i < |g| ==> g[i] >= 0
    ensures Expand(RunPieces(g), lastEbook) == g
  {
    var x := IntToString(g[0]);
    SingleItem(g[0], lastEbook);
    ExpandSingle(x, lastEbook);
    if |g| == 1 {
      assert Decimals(g) == [x];
      assert RunPieces(g) == [x];
    } else if |g| == 2 {
      var y := IntToString(g[1]);
      SingleItem(g[1], lastEbook);
      ExpandSingle(y, lastEbook);
      assert Decimals(g) == [x] + [y];
      assert RunPieces(g) == [x] + [y];
      ExpandAppend([x], [y], lastEbook);
      assert g == [g[0]] + [g[1]];
    } else {
      var b := g[|g| - 1];
      ConsecutiveIsInterval(g);
      ClosedItem(g[0], b, lastEbook);
      var piece := NatToString(g[0]) + "-" + NatToString(b);
      assert RunPieces(g) == [piece];
      ExpandSingle(piece, lastEbook);
    }
  }

  /** No item holds a comma or a space. */
  predicate Plain(items: seq<string>) {
    forall k :: 0 <= k < |items| ==> !HasChar(items[k], ',') && !HasChar(items[k], ' ')
  }

  lemma PlainAppend(a: seq<string>, b: seq<string>)
    requires Plain(a) && Plain(b)
    ensures Plain(a + b)
  {
    assert forall k :: |a| <= k < |a + b| ==> (a + b)[k] == b[k - |a|];
  }

  /** The printed items hold only digits and dashes. */
  lemma RunPiecesPlain(g: seq<int>)
    requires g != []
    requires forall i :: 0 <= i < |g| ==> g[i] >= 0
    ensures Plain(RunPieces(g))
  {
    var a, b := NatToString(g[0]), NatToString(g[|g| - 1]);
    NoDashInDigits(a);
    NoDashInDigits(b);
    if |g| == 2 {
      NoDashInDigits(NatToString(g[1]));
    } else if |g| > 2 {
      var piece := a + "-" + b;
      assert RunPieces(g) == [piece];
      forall i | 0 <= i < |piece| ensures piece[i] != ',' && piece[i] != ' ' {
        if i < |a| {
          assert piece[i] == a[i];
        } else if i > |a| {
          assert piece[i] == b[i - |a| - 1];
        }
      }
    }
  }

  lemma FlattenSingle<T>(g: seq<T>)
    ensures Flatten([g]) == g
  {
    assert [g][1..] == [];
  }

  lemma {:induction false} ExpandPieces(runs: seq<seq<int>>, k: nat, lastEbook: int)
    requires k <= |runs|
    requires forall j :: 0 <= j < |runs| ==> runs[j] != [] && Consecutive(runs[j])
    requires forall j, i :: 0 <= j < |runs| && 0 <= i < |runs[j]| ==> runs[j][i] >= 0
    ensures Expand(Pieces(runs, k), lastEbook) == Flatten(runs[..k])
  {
    if k > 0 {
      var g := runs[k - 1];
      ExpandPieces(runs, k - 1, lastEbook);
      ExpandAppend(Pieces(runs, k - 1), RunPieces(g), lastEbook);
      RunPiecesExpand(g, lastEbook);
      SliceSnoc(runs, k);
      FlattenAppend(runs[..k - 1], [g]);
      FlattenSingle(g);
    }
  }

  lemma {:induction false} PiecesPlain(runs: seq<seq<int>>, k: nat)
    requires k <= |runs|
    requires forall j :: 0 <= j < |runs| ==> runs[j] != []
    requires forall j, i :: 0 <= j < |runs| && 0 <= i < |runs[j]| ==> runs[j][i] >= 0
    ensures Plain(Pieces(runs, k))
  {
    if k > 0 {
      PiecesPlain(runs, k - 1);
      assert Plain(Pieces(runs, k - 1));
      RunPiecesPlain(runs[k - 1]);
      PlainAppend(Pieces(runs, k - 1), RunPieces(runs[k - 1]));
    }
  }

  /** Reading the printed items back as range items gives the list back,
      for any list of non-negative ebook numbers. */
  lemma PrettyPrintRoundTrip(l: seq<int>, lastEbook: int)
    requires l != []
    requires forall i :: 0 <= i < |l| ==> l[i] >= 0
    ensures Split(Join(" ", PrettyPieces(l)), ' ') == PrettyPieces(l)
    ensures RangeSpec(Join(",", PrettyPieces(l)), lastEbook) == l
  {
    var runs := Runs(l);
    RunsAreMaximalRuns(l);
    RunsMembers(l);
    ExpandPieces(runs, |runs|, lastEbook);
    PiecesPlain(runs, |runs|);
    assert runs[..|runs|] == runs;
    assert |PrettyPieces(l)| >= |RunPieces(runs[|runs| - 1])| >= 1;
    SplitJoin(PrettyPieces(l), ' ');
    RangeSpecInOrder(PrettyPieces(l), lastEbook);
  }

  /*** grouper ***/

  function Fill<T>(k: nat, fill: T): (r: seq<T>)
    ensures |r| == k && forall i :: 0 <= i < k ==> r[i] == fill
  {
    seq(k, _ => fill)
  }

  /** The padding holds the fill value and nothing else, and padding twice
      is padding once by the sum. */
  lemma FillOnly<T>(k: nat, m: nat, fill: T, x: T)
    ensures x in Fill(k, fill) <==> k > 0 && x == fill
    ensures Fill(k, fill) + Fill(m, fill) == Fill(k + m, fill)
  {
    if k > 0 {
      assert Fill(k, fill)[0] == fill;
    }
  }

  /** `grouper(iterable, n, fillvalue)`: chunks of `n`, the last one padded. */
  function Grouper<T>(s: seq<T>, n: nat, fill: T): seq<seq<T>>
    decreases |s|
  {
    if n == 0 || s == [] then []
    else if |s| <= n then [s + Fill(n - |s|, fill)]
    else [s[..n]] + Grouper(s[n..], n, fill)
  }

  /** Every chunk has `n` items, and the chunks hold the input in order
      followed by fewer than `n` fill values. */
  lemma {:induction false} GrouperChunks<T>(s: seq<T>, n: nat, fill: T)
    requires n > 0
    ensures forall k :: 0 <= k < |Grouper(s, n, fill)| ==> |Grouper(s, n, fill)[k]| == n
    ensures var f := Flatten(Grouper(s, n, fill));
      |s| <= |f| < |s| + n && f == s + Fill(|f| - |s|, fill)
    decreases |s|
  {
    var r := Grouper(s, n, fill);
    if s == [] {
    } else if |s| <= n {
      assert r[1..] == [];
      assert Flatten(r) == s + Fill(n - |s|, fill);
    } else {
      GrouperChunks(s[n..], n, fill);
      var rest := Grouper(s[n..], n, fill);
      assert r[1..] == rest;
      assert forall k :: 1 <= k < |r| ==> r[k] == rest[k - 1];
      assert Flatten(r) == s[..n] + Flatten(rest);
      assert s == s[..n] + s[n..];
    }
  }

  lemma {:induction false} FlattenUniform<T>(r: seq<seq<T>>, n: nat)
    requires forall k :: 0 <= k < |r| ==> |r[k]| == n
    ensures |Flatten(r)| == |r| * n
  {
    if r != [] {
      FlattenUniform(r[1..], n);
      assert |r| * n == n + (|r| - 1) * n;
    }
  }

  /** There are `ceil(|s| / n)` chunks: together they hold at least `|s|`
      items and fewer than `|s| + n`. */
  lemma GrouperCount<T>(s: seq<T>, n: nat, fill: T)
    requires n > 0
    ensures |s| <= |Grouper(s, n, fill)| * n < |s| + n
  {
    GrouperChunks(s, n, fill);
    FlattenUniform(Grouper(s, n, fill), n);
  }

  /** Without a batch size there are no batches, as `zip_longest()` gives. */
  lemma GrouperZero<T>(s: seq<T>, fill: T)
    ensures Grouper(s, 0, fill) == []
  {
  }
}
