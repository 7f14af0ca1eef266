/** The two readers of hdl-dump's text output in hdlg/hdd.py: `disk_map`
    takes the last line of `hdl-dump map` apart, and `get_games_list` turns
    the table printed by `hdl-dump hdl_toc` into game records sorted by
    name. Running hdl-dump is outside the model: its output lines are the
    input here. */
module HdlOutput {
  import opened Wrappers
  import opened Strings
  import opened Utils
  import opened Errors
  import opened Seqs

  // ---------------------------------------------------------------------
  // disk_map

  /** Total slice size, used and available space, in bytes. */
  datatype DiskMap = DiskMap(total: int, used: int, available: int)

  /** hdl-dump reports megabytes; hdlg multiplies by 1000 * 1000. */
  const MB: nat := 1_000_000

  /** `int(x.split(": ")[1][:-2]) * 1000 * 1000`: the text between the first
      ": " and the next one (or the end), less its last two characters (the
      "MB" unit), as an integer number of megabytes. */
  function MapValue(field: string): (r: Result<int, Error>)
    ensures r.Success? ==> r.value % MB == 0
    ensures Split(field, ": ", -1) == [field] ==> r == Failure(MissingValue(field))
  {
    var pieces := Split(field, ": ", -1);
    if |pieces| < 2 then Failure(MissingValue(field))
    else
      var text := pieces[1][..if |pieces[1]| >= 2 then |pieces[1]| - 2 else 0];
      match ParseInt(text)
      case None => Failure(NotAnInteger(text))
      case Some(n) => MultipleOfMB(n); Success(n * MB)
  }

  lemma MultipleOfMB(n: int)
    ensures (n * MB) % MB == 0
  {
    var m: int := MB;
    var v: int := n * m;
    var k := n - v / m;
    assert m * k == v % m;
    assert k >= 1 ==> m * k >= m;
    assert k <= -1 ==> m * k <= -m;
  }

  /** `disk_map` on the lines of `hdl-dump map`: an empty output has no last
      line; the last line is cut at ", " and must give exactly three
      values. */
  function ParseDiskMap(output: seq<string>): (r: Result<DiskMap, Error>)
    ensures |output| == 0 ==> r == Failure(NoOutputLine)
    ensures r.Success? ==> |output| > 0 && |Split(output[|output| - 1], ", ", -1)| == 3
    ensures r.Success? ==> r.value.total % MB == 0 && r.value.used % MB == 0 && r.value.available % MB == 0
  {
    if |output| == 0 then Failure(NoOutputLine)
    else
      var fields := Split(output[|output| - 1], ", ", -1);
      CollectSuccess(MapValue, fields);
      match Collect(MapValue, fields)
      case Failure(e) => Failure(e)
      case Success(vs) =>
        if |vs| != 3 then Failure(WrongFieldCount(|vs|))
        else Success(DiskMap(vs[0], vs[1], vs[2]))
  }

  /** One field as hdl-dump prints it: a caption, ": ", megabytes and "MB". */
  function MapField(caption: string, mb: int): string {
    caption + ": " + IntText(mb) + "MB"
  }

  /** The line hdl-dump ends its `map` output with, such as
      "Total slice size: 152627MB, used: 8608MB, available: 144019MB". */
  function MapLine(captions: seq<string>, total: int, used: int, available: int): string
    requires |captions| == 3
  {
    Join([MapField(captions[0], total), MapField(captions[1], used), MapField(captions[2], available)], ", ")
  }

  lemma IntTextChars(n: int)
    ensures |IntText(n)| > 0
    ensures forall i :: 0 <= i < |IntText(n)| ==> IntText(n)[i] == '-' || IsDigit(IntText(n)[i])
  {
    NatTextDigits(if n < 0 then -n else n);
  }

  lemma MapFieldValue(caption: string, mb: int)
    requires ':' !in caption
    ensures MapValue(MapField(caption, mb)) == Success(mb * MB)
  {
    var tail := IntText(mb) + "MB";
    IntTextChars(mb);
    assert ':' !in tail;
    assert MapField(caption, mb) == Join([caption, tail], ": ");
    SplitJoined([caption, tail], ": ", -1);
    assert tail[..|tail| - 2] == IntText(mb);
    ParseIntText(mb);
  }

  lemma MapFieldNoComma(caption: string, mb: int)
    requires ',' !in caption
    ensures ',' !in MapField(caption, mb)
  {
    IntTextChars(mb);
  }

  /** The final line cuts into its three fields at ", ". */
  lemma MapLineSplits(captions: seq<string>, total: int, used: int, available: int)
    requires |captions| == 3
    requires forall k :: 0 <= k < 3 ==> ',' !in captions[k]
    ensures Split(MapLine(captions, total, used, available), ", ", -1)
         == [MapField(captions[0], total), MapField(captions[1], used), MapField(captions[2], available)]
  {
    var fields := [MapField(captions[0], total), MapField(captions[1], used), MapField(captions[2], available)];
    MapFieldNoComma(captions[0], total);
    MapFieldNoComma(captions[1], used);
    MapFieldNoComma(captions[2], available);
    assert forall k :: 0 <= k < 3 ==> ',' !in fields[k];
    SplitJoined(fields, ", ", -1);
  }

  lemma MapValuesOfThree(a: string, b: string, c: string, x: int, y: int, z: int)
    requires MapValue(a) == Success(x) && MapValue(b) == Success(y) && MapValue(c) == Success(z)
    ensures Collect(MapValue, [a, b, c]) == Success([x, y, z])
  {
    var fields, vs := [a, b, c], [x, y, z];
    forall k | 0 <= k < 3
      ensures MapValue(fields[k]) == Success(vs[k])
    {
      if k == 0 {
        assert fields[k] == a && vs[k] == x;
      } else if k == 1 {
        assert fields[k] == b && vs[k] == y;
      } else {
        assert fields[k] == c && vs[k] == z;
      }
    }
    CollectOf(MapValue, fields, vs);
  }

  /** `disk_map` of output whose last line cuts into three fields that
      convert. */
  lemma ParseDiskMapOfLast(output: seq<string>, fields: seq<string>, vs: seq<int>)
    requires |output| > 0 && Split(output[|output| - 1], ", ", -1) == fields
    requires Collect(MapValue, fields) == Success(vs) && |vs| == 3
    ensures ParseDiskMap(output) == Success(DiskMap(vs[0], vs[1], vs[2]))
  {
  }

  /** `disk_map` reads back the three amounts of the last line, whatever
      came before it, as long as the captions hold no ':' or ','. */
  lemma DiskMapRoundTrip(before: seq<string>, captions: seq<string>, total: int, used: int, available: int)
    requires |captions| == 3
    requires forall k :: 0 <= k < 3 ==> ':' !in captions[k] && ',' !in captions[k]
    ensures ParseDiskMap(before + [MapLine(captions, total, used, available)])
         == Success(DiskMap(total * MB, used * MB, available * MB))
  {
    var output := before + [MapLine(captions, total, used, available)];
    assert output[|output| - 1] == MapLine(captions, total, used, available);
    MapLineSplits(captions, total, used, available);
    MapFieldValue(captions[0], total);
    MapFieldValue(captions[1], used);
    MapFieldValue(captions[2], available);
    MapValuesOfThree(MapField(captions[0], total), MapField(captions[1], used), MapField(captions[2], available),
      total * MB, used * MB, available * MB);
    ParseDiskMapOfLast(output,
      [MapField(captions[0], total), MapField(captions[1], used), MapField(captions[2], available)],
      [total * MB, used * MB, available * MB]);
  }

  // ---------------------------------------------------------------------
  // get_games_list

  /** A game record: media type, size in bytes, flags, DMA mode, game id and
      name. */
  datatype Game = Game(mediaType: string, size: int, flags: int, dma: string, gameId: string, name: string)

  /** The name given to a line that has no sixth column: a game whose
      installation went wrong. */
  const MALFORMED_NAME: string := "[!]"

  /** hdl_toc reports kilobytes; hdlg multiplies by 1000. */
  const KB: nat := 1000

  /** `[1:-1]`: the header line and the footer line are dropped. */
  function TocBody(output: seq<string>): (body: seq<string>)
    ensures |body| == if |output| < 2 then 0 else |output| - 2
    ensures forall k :: 0 <= k < |body| ==> body[k] == output[k + 1]
  {
    if |output| < 2 then [] else output[1..|output| - 1]
  }

  /** `(NEIGHBORING_WHITESPACE.sub(" ", game).split(" ", maxsplit=5) + ["[!]"])[:6]`. */
  function TocFields(line: string): (fields: seq<string>)
    ensures var parts := Split(Collapse(line), " ", 5);
      && (|parts| == 6 ==> fields == parts)
      && (|parts| == 5 ==> fields == parts + [MALFORMED_NAME])
      && (|parts| < 5 ==> |fields| == |parts| + 1 < 6)
  {
    var padded := Split(Collapse(line), " ", 5) + [MALFORMED_NAME];
    padded[..if |padded| < 6 then |padded| else 6]
  }

  /** The tuple unpacking and conversion of one table line: six columns are
      needed; the size column loses every "KB" and is kilobytes; the flags
      column is an integer. The size is converted before the flags. */
  function ParseGame(line: string): (r: Result<Game, Error>)
    ensures |TocFields(line)| != 6 ==> r == Failure(WrongFieldCount(|TocFields(line)|))
    ensures r.Success? ==> var f := TocFields(line);
      && r.value.mediaType == f[0] && r.value.dma == f[3] && r.value.gameId == f[4] && r.value.name == f[5]
  {
    var f := TocFields(line);
    if |f| != 6 then Failure(WrongFieldCount(|f|))
    else
      var sizeText := Replace(f[1], "KB", "");
      match ParseInt(sizeText)
      case None => Failure(NotAnInteger(sizeText))
      case Some(kb) =>
        match ParseInt(f[2])
        case None => Failure(NotAnInteger(f[2]))
        case Some(flags) => Success(Game(f[0], kb * KB, flags, f[3], f[4], f[5]))
  }

  /** `get_games_list` on the lines of `hdl-dump hdl_toc`. */
  function GamesList(output: seq<string>): (r: Result<seq<Game>, Error>)
    ensures r.Success? <==> Collect(ParseGame, TocBody(output)).Success?
    ensures r.Success? ==> SortedByName(r.value)
    ensures r.Success? ==> multiset(r.value) == multiset(Collect(ParseGame, TocBody(output)).value)
  {
    match Collect(ParseGame, TocBody(output))
    case Failure(e) => Failure(e)
    case Success(games) => Success(SortByName(games))
  }

  // ---------------------------------------------------------------------
  // games.sort(key=lambda x: x[-1]): a stable sort on the name

  predicate SortedByName(gs: seq<Game>) {
    forall i, j :: 0 <= i < j < |gs| ==> LexLe(gs[i].name, gs[j].name)
  }

  /** A record in front of a sorted list whose names are all at least its
      own keeps the list sorted. */
  lemma SortedCons(x: Game, gs: seq<Game>)
    requires SortedByName(gs)
    requires forall k :: 0 <= k < |gs| ==> LexLe(x.name, gs[k].name)
    ensures SortedByName([x] + gs)
  {
    var r := [x] + gs;
    assert forall k :: 1 <= k < |r| ==> r[k] == gs[k - 1];
  }

  /** `g` goes in front of the first record whose name is greater than its
      own, so after every record of the same name. */
  function InsertByName(gs: seq<Game>, g: Game): (r: seq<Game>)
    requires SortedByName(gs)
    ensures SortedByName(r)
    ensures multiset(r) == multiset(gs) + multiset{g}
    ensures forall k :: 0 <= k < |r| ==> r[k] == g || r[k] in gs
  {
    if |gs| == 0 then [g]
    else if !LexLe(gs[0].name, g.name) then
      LexLeTotal(gs[0].name, g.name);
      forall j | 0 <= j < |gs|
        ensures LexLe(g.name, gs[j].name)
      {
        if j > 0 {
          LexLeTransitive(g.name, gs[0].name, gs[j].name);
        }
      }
      SortedCons(g, gs);
      [g] + gs
    else
      var rest := InsertByName(gs[1..], g);
      HeadTail(gs);
      forall k | 0 <= k < |rest|
        ensures LexLe(gs[0].name, rest[k].name)
      {
        if rest[k] != g {
          var j :| 0 <= j < |gs[1..]| && gs[1..][j] == rest[k];
          assert gs[j + 1] == rest[k];
        }
      }
      SortedCons(gs[0], rest);
      [gs[0]] + rest
  }

  /** Insertion sort, the last record inserted last. */
  function SortByName(gs: seq<Game>): (r: seq<Game>)
    ensures SortedByName(r)
    ensures multiset(r) == multiset(gs)
  {
    if |gs| == 0 then []
    else
      assert gs == gs[..|gs| - 1] + [gs[|gs| - 1]];
      InsertByName(SortByName(gs[..|gs| - 1]), gs[|gs| - 1])
  }

  /** The records named `n`, in order. */
  function OfName(gs: seq<Game>, n: string): seq<Game> {
    if |gs| == 0 then []
    else (if gs[0].name == n then [gs[0]] else []) + OfName(gs[1..], n)
  }

  lemma {:induction false} OfNameAppend(a: seq<Game>, b: seq<Game>, n: string)
    ensures OfName(a + b, n) == OfName(a, n) + OfName(b, n)
  {
    if |a| == 0 {
      assert a + b == b;
    } else {
      var head := if a[0].name == n then [a[0]] else [];
      assert OfName(a + b, n) == head + OfName(a[1..] + b, n) by {
        assert (a + b)[0] == a[0] && (a + b)[1..] == a[1..] + b;
      }
      OfNameAppend(a[1..], b, n);
      ConcatAssoc(head, OfName(a[1..], n), OfName(b, n));
    }
  }

  lemma {:induction false} OfNameNone(gs: seq<Game>, n: string)
    requires forall k :: 0 <= k < |gs| ==> gs[k].name != n
    ensures OfName(gs, n) == []
  {
    if |gs| > 0 {
      OfNameNone(gs[1..], n);
    }
  }

  /** A record is among the records of its own name. */
  lemma {:induction false} OfNameHas(gs: seq<Game>, i: nat)
    requires i < |gs|
    ensures gs[i] in OfName(gs, gs[i].name)
  {
    if i > 0 {
      OfNameHas(gs[1..], i - 1);
    }
  }

  /** The records named `n` all come from the sequence and are named `n`. */
  lemma {:induction false} OfNameFrom(gs: seq<Game>, n: string, x: Game)
    requires x in OfName(gs, n)
    ensures x in gs && x.name == n
  {
    if x != gs[0] || gs[0].name != n {
      OfNameFrom(gs[1..], n, x);
    }
  }

  lemma {:induction false} InsertOfName(gs: seq<Game>, g: Game, n: string)
    requires SortedByName(gs)
    ensures OfName(InsertByName(gs, g), n) == OfName(gs, n) + (if g.name == n then [g] else [])
  {
    var tag := if g.name == n then [g] else [];
    if |gs| == 0 {
      assert OfName([g], n) == tag + OfName([], n);
    } else if !LexLe(gs[0].name, g.name) {
      var r := [g] + gs;
      assert InsertByName(gs, g) == r;
      assert r[1..] == gs;
      assert OfName(r, n) == tag + OfName(gs, n);
      if g.name == n {
        LexLeReflexive(n);
        forall k | 0 <= k < |gs|
          ensures gs[k].name != n
        {
          assert LexLe(gs[0].name, gs[k].name) || k == 0;
        }
        OfNameNone(gs, n);
      }
    } else {
      var rest := InsertByName(gs[1..], g);
      var r := [gs[0]] + rest;
      assert InsertByName(gs, g) == r;
      assert r[1..] == rest;
      var head := if gs[0].name == n then [gs[0]] else [];
      assert OfName(r, n) == head + OfName(rest, n);
      InsertOfName(gs[1..], g, n);
      assert OfName(gs, n) == head + OfName(gs[1..], n);
      ConcatAssoc(head, OfName(gs[1..], n), tag);
    }
  }

  /** Records of the same name keep their order: the sort is stable. */
  lemma {:induction false} SortStable(gs: seq<Game>, n: string)
    ensures OfName(SortByName(gs), n) == OfName(gs, n)
  {
    if |gs| > 0 {
      var init, last := gs[..|gs| - 1], gs[|gs| - 1];
      InitLast(gs);
      SortStable(init, n);
      assert SortByName(gs) == InsertByName(SortByName(init), last);
      InsertOfName(SortByName(init), last, n);
      OfNameAppend(init, [last], n);
      assert OfName([last], n) == (if last.name == n then [last] else []) + OfName([], n);
    }
  }

  /** Lists with the same records per name are both empty or both not. */
  lemma EmptyTogether(a: seq<Game>, b: seq<Game>)
    requires forall n :: OfName(a, n) == OfName(b, n)
    ensures |a| == 0 <==> |b| == 0
  {
    if |a| > 0 {
      OfNameHas(a, 0);
    }
    if |b| > 0 {
      OfNameHas(b, 0);
    }
  }

  /** A sequence sorted by name is fixed by the order of each name's
      records: there is only one stable sort of a list. */
  lemma {:induction false} StableSortUnique(a: seq<Game>, b: seq<Game>)
    requires SortedByName(a) && SortedByName(b)
    requires forall n :: OfName(a, n) == OfName(b, n)
    ensures a == b
  {
    EmptyTogether(a, b);
    if |a| > 0 {
      var m := a[0].name;
      LexLeReflexive(m);
      OfNameHas(a, 0);
      OfNameFrom(b, m, a[0]);
      var j :| 0 <= j < |b| && b[j] == a[0];
      assert LexLe(b[0].name, m) by {
        assert j == 0 || LexLe(b[0].name, b[j].name);
      }
      OfNameHas(b, 0);
      OfNameFrom(a, b[0].name, b[0]);
      var i :| 0 <= i < |a| && a[i] == b[0];
      assert LexLe(m, b[0].name) by {
        assert i == 0 || LexLe(a[0].name, a[i].name);
      }
      LexLeAntisymmetric(m, b[0].name);
      assert OfName(a, m) == [a[0]] + OfName(a[1..], m);
      assert OfName(b, m) == [b[0]] + OfName(b[1..], m);
      assert a[0] == OfName(a, m)[0] == OfName(b, m)[0] == b[0];
      forall n
        ensures OfName(a[1..], n) == OfName(b[1..], n)
      {
        var p := if a[0].name == n then [a[0]] else [];
        assert OfName(a, n) == p + OfName(a[1..], n);
        assert OfName(b, n) == p + OfName(b[1..], n);
        DropPrefix(p, OfName(a[1..], n));
        DropPrefix(p, OfName(b[1..], n));
      }
      StableSortUnique(a[1..], b[1..]);
      HeadTail(a);
      HeadTail(b);
    }
  }

  /** `get_games_list` returns the parsed records sorted by name, records of
      one name in table order, and it is the only such list. */
  lemma GamesListIsStableSort(output: seq<string>, other: seq<Game>)
    requires Collect(ParseGame, TocBody(output)).Success?
    ensures GamesList(output).Success?
    ensures forall n :: OfName(GamesList(output).value, n) == OfName(Collect(ParseGame, TocBody(output)).value, n)
    ensures SortedByName(other) && (forall n :: OfName(other, n) == OfName(Collect(ParseGame, TocBody(output)).value, n))
            ==> other == GamesList(output).value
  {
    var parsed := Collect(ParseGame, TocBody(output)).value;
    var sorted := GamesList(output).value;
    forall n
      ensures OfName(sorted, n) == OfName(parsed, n)
    {
      SortStable(parsed, n);
    }
    if SortedByName(other) && (forall n :: OfName(other, n) == OfName(parsed, n)) {
      StableSortUnique(other, sorted);
    }
  }

  // ---------------------------------------------------------------------
  // The table lines hdl_toc prints

  predicate NoSpaceIn(s: string) {
    forall i :: 0 <= i < |s| ==> !IsSpace(s[i])
  }

  /** Columns with padding between each two: `gaps[k]` separates column
      `k` from column `k + 1`, so each gap may have its own width. */
  function Padded(cols: seq<string>, gaps: seq<string>): string
    requires |cols| >= 1 && |gaps| == |cols| - 1
  {
    if |cols| == 1 then cols[0] else cols[0] + (gaps[0] + Padded(cols[1..], gaps[1..]))
  }

  /** A word, padding and text that does not start with whitespace: the
      padding becomes one space. */
  lemma CollapseWordGap(word: string, gap: string, tail: string)
    requires |word| > 0 && NoSpaceIn(word) && Padding(gap)
    requires |tail| == 0 || !IsSpace(tail[0])
    ensures Collapse(word + (gap + tail)) == word + (" " + Collapse(tail))
  {
    assert !IsSpace(word[|word| - 1]);
    CollapseAppend(word, gap + tail);
    assert NoDoubleSpace(word);
    CollapseKeeps(word);
    CollapsePaddingBefore(gap, tail);
  }

  /** Padded columns collapse to the columns joined by single spaces,
      whatever the width of each gap, when every column but the last is a
      non-empty word and the last neither starts with whitespace nor holds
      two whitespace characters in a row. */
  lemma {:induction false} CollapseColumns(cols: seq<string>, gaps: seq<string>)
    requires |cols| >= 1 && |gaps| == |cols| - 1
    requires forall k :: 0 <= k < |gaps| ==> Padding(gaps[k])
    requires forall k :: 0 <= k < |cols| - 1 ==> |cols[k]| > 0 && NoSpaceIn(cols[k])
    requires var last := cols[|cols| - 1]; NoDoubleSpace(last) && (|last| == 0 || !IsSpace(last[0]))
    ensures Collapse(Padded(cols, gaps)) == Join(cols, " ")
  {
    if |cols| == 1 {
      CollapseKeeps(cols[0]);
    } else {
      var c0, rest, more := cols[0], cols[1..], gaps[1..];
      var tail := Padded(rest, more);
      assert Padded(cols, gaps) == c0 + (gaps[0] + tail);
      assert Join(cols, " ") == c0 + (" " + Join(rest, " "));
      assert |tail| == 0 || !IsSpace(tail[0]) by {
        if |rest| > 1 {
          assert NoSpaceIn(rest[0]) && |rest[0]| > 0;
          assert tail[0] == rest[0][0];
        }
      }
      CollapseWordGap(c0, gaps[0], tail);
      CollapseColumns(rest, more);
    }
  }

  /** A table line: media type, size in kilobytes with "KB", flags, DMA
      mode, game id and name, the columns padded to their widths. */
  function TocLine(mediaType: string, kb: int, flags: int, dma: string, gameId: string, name: string, gaps: seq<string>): string
    requires |gaps| == 5
  {
    Padded([mediaType, IntText(kb) + "KB", IntText(flags), dma, gameId, name], gaps)
  }

  /** The same line for a game hdl_toc lists without a name. */
  function NamelessTocLine(mediaType: string, kb: int, flags: int, dma: string, gameId: string, gaps: seq<string>): string
    requires |gaps| == 4
  {
    Padded([mediaType, IntText(kb) + "KB", IntText(flags), dma, gameId], gaps)
  }

  lemma IntTextWord(n: int)
    ensures |IntText(n)| > 0 && NoSpaceIn(IntText(n)) && 'K' !in IntText(n)
  {
    IntTextChars(n);
  }

  lemma SizeColumn(kb: int)
    ensures ParseInt(Replace(IntText(kb) + "KB", "KB", "")) == Some(kb)
  {
    IntTextWord(kb);
    FirstAt(IntText(kb), "KB", "");
    ReplaceFirst(IntText(kb), "KB", "", "");
    assert IntText(kb) + "KB" == IntText(kb) + "KB" + "";
    NoOccurrenceWithoutFirstChar("", "KB");
    ReplaceAbsent("", "KB", "");
    ParseIntText(kb);
  }

  /** A line whose columns are a media type, a size with "KB", flags, a
      DMA mode, a game id and a name gives that record. */
  lemma ParseGameOfFields(line: string, mediaType: string, kb: int, flags: int, dma: string, gameId: string, name: string)
    requires TocFields(line) == [mediaType, IntText(kb) + "KB", IntText(flags), dma, gameId, name]
    ensures ParseGame(line) == Success(Game(mediaType, kb * KB, flags, dma, gameId, name))
  {
    var f := TocFields(line);
    assert |f| == 6 && f[1] == IntText(kb) + "KB" && f[2] == IntText(flags);
    SizeColumn(kb);
    ParseIntText(flags);
    assert ParseInt(Replace(f[1], "KB", "")) == Some(kb) && ParseInt(f[2]) == Some(flags);
  }

  /** A table line gives back the record it shows, sizes in bytes; the name
      may hold single spaces. */
  lemma TocLineParses(mediaType: string, kb: int, flags: int, dma: string, gameId: string, name: string, gaps: seq<string>)
    requires |gaps| == 5 && forall k :: 0 <= k < 5 ==> Padding(gaps[k])
    requires |mediaType| > 0 && NoSpaceIn(mediaType)
    requires |dma| > 0 && NoSpaceIn(dma)
    requires |gameId| > 0 && NoSpaceIn(gameId)
    requires NoDoubleSpace(name) && (|name| == 0 || !IsSpace(name[0]))
    ensures ParseGame(TocLine(mediaType, kb, flags, dma, gameId, name, gaps))
         == Success(Game(mediaType, kb * KB, flags, dma, gameId, name))
  {
    var line := TocLine(mediaType, kb, flags, dma, gameId, name, gaps);
    var cols := [mediaType, IntText(kb) + "KB", IntText(flags), dma, gameId, name];
    IntTextWord(kb);
    IntTextWord(flags);
    CollapseColumns(cols, gaps);
    SplitJoined(cols, " ", 5);
    assert TocFields(line) == cols;
    ParseGameOfFields(line, mediaType, kb, flags, dma, gameId, name);
  }

  /** A line with only five columns gets the name "[!]". */
  lemma NamelessTocLineParses(mediaType: string, kb: int, flags: int, dma: string, gameId: string, gaps: seq<string>)
    requires |gaps| == 4 && forall k :: 0 <= k < 4 ==> Padding(gaps[k])
    requires |mediaType| > 0 && NoSpaceIn(mediaType)
    requires |dma| > 0 && NoSpaceIn(dma)
    requires |gameId| > 0 && NoSpaceIn(gameId)
    ensures ParseGame(NamelessTocLine(mediaType, kb, flags, dma, gameId, gaps))
         == Success(Game(mediaType, kb * KB, flags, dma, gameId, MALFORMED_NAME))
  {
    var line := NamelessTocLine(mediaType, kb, flags, dma, gameId, gaps);
    var cols := [mediaType, IntText(kb) + "KB", IntText(flags), dma, gameId];
    IntTextWord(kb);
    IntTextWord(flags);
    CollapseColumns(cols, gaps);
    SplitJoined(cols, " ", 5);
    assert TocFields(line) == cols + [MALFORMED_NAME];
    ParseGameOfFields(line, mediaType, kb, flags, dma, gameId, MALFORMED_NAME);
  }
}
