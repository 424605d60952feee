/** Callback dispatch: source rows grouped by key, then one burst of callbacks per click row. */
module Dispatch {
  import opened KeyCleaning
  import opened Sequences
  import opened Wrappers

  type Row = seq<string>

  /** A source record, under the key it is grouped by. */
  datatype Record = Record(key: string, callbackParam: string, advertiserId: string, other: seq<string>)

  type Groups = map<string, seq<Record>>

  // ---------------------------------------------------------------- header lookup

  /** Column i carries one of the names. */
  predicate Names(header: Row, names: seq<string>, i: nat) {
    i < |header| && TrimSpace(header[i]) in names
  }

  ghost predicate HasColumn(header: Row, names: seq<string>) { exists i: nat :: Names(header, names, i) }

  /** Column i is the first one with one of the names. */
  predicate HeadsFirst(header: Row, names: seq<string>, i: nat) {
    Names(header, names, i) && forall k: nat :: k < i ==> !Names(header, names, k)
  }

  /** The first column from i on with one of the names, -1 when there is none. */
  function ColumnFrom(header: Row, names: seq<string>, i: nat): int
    decreases |header| - i
  {
    if i >= |header| then -1
    else if TrimSpace(header[i]) in names then i
    else ColumnFrom(header, names, i + 1)
  }

  function Column(header: Row, names: seq<string>): int { ColumnFrom(header, names, 0) }

  method FindColumnIndex(header: Row, possibleNames: seq<string>) returns (index: int)
    ensures -1 <= index < |header|
    ensures index == -1 <==> !HasColumn(header, possibleNames)
    ensures forall i: nat :: HeadsFirst(header, possibleNames, i) <==> index == i
  {
    for i := 0 to |header|
      invariant forall k :: 0 <= k < i ==> !Names(header, possibleNames, k)
    {
      for j := 0 to |possibleNames|
        invariant TrimSpace(header[i]) !in possibleNames[..j]
      {
        if TrimSpace(header[i]) == possibleNames[j] {
          assert HeadsFirst(header, possibleNames, i);
          return i;
        }
        assert possibleNames[..j + 1] == possibleNames[..j] + [possibleNames[j]];
      }
      assert possibleNames[..|possibleNames|] == possibleNames;
    }
    index := -1;
  }

  lemma ColumnSpelledOut(header: Row, names: seq<string>)
    ensures -1 <= Column(header, names) < |header|
    ensures Column(header, names) == -1 <==> !HasColumn(header, names)
    ensures forall i: nat :: HeadsFirst(header, names, i) <==> Column(header, names) == i
  {
    ColumnFromIsFirst(header, names, 0);
  }

  lemma {:induction false} ColumnFromIsFirst(header: Row, names: seq<string>, i: nat)
    requires forall k: nat :: k < i ==> !Names(header, names, k)
    ensures var c := ColumnFrom(header, names, i);
            if c == -1 then forall k: nat :: !Names(header, names, k)
            else i <= c < |header| && HeadsFirst(header, names, c)
    decreases |header| - i
  {
    if i < |header| && TrimSpace(header[i]) !in names {
      ColumnFromIsFirst(header, names, i + 1);
    }
  }

  // ---------------------------------------------------------------- grouping

  function CellOr(row: Row, col: int): string {
    if 0 <= col < |row| then row[col] else ""
  }

  /** A Kuaishou source row; rows too short for the required columns are passed over. */
  function KsRecord(adIdCol: nat, callbackCol: nat, advertiserCol: int, otherCols: seq<int>): Row -> Option<Record> {
    (row: Row) =>
      if |row| <= adIdCol || |row| <= callbackCol then None
      else Some(Record(CleanKey(row[adIdCol]), row[callbackCol], CellOr(row, advertiserCol),
                       seq(|otherCols|, i requires 0 <= i < |otherCols| => CellOr(row, otherCols[i]))))
  }

  function Accepted(rows: seq<Row>, record: Row -> Option<Record>): seq<Record> { FilterMap(record, rows) }

  /** The records with a key, in order. */
  function Under(rs: seq<Record>, key: string): seq<Record> {
    if rs == [] then [] else Under(rs[..|rs| - 1], key) + if rs[|rs| - 1].key == key then [rs[|rs| - 1]] else []
  }

  ghost predicate IsGrouping(m: Groups, rs: seq<Record>) {
    && (forall k :: k in m <==> exists i :: 0 <= i < |rs| && rs[i].key == k)
    && forall k :: k in m ==> m[k] == Under(rs, k)
  }

  /** Rows go one by one behind the others of their key. */
  method GroupRows(rows: seq<Row>, record: Row -> Option<Record>) returns (dataMap: Groups)
    ensures IsGrouping(dataMap, Accepted(rows, record))
  {
    dataMap := map[];
    for i := 0 to |rows|
      invariant IsGrouping(dataMap, Accepted(rows[..i], record))
    {
      assert rows[..i + 1] == rows[..i] + [rows[i]];
      FilterMapSnoc(record, rows[..i], rows[i]);
      var r := record(rows[i]);
      if r == None {
        assert Accepted(rows[..i], record) + [] == Accepted(rows[..i], record);
        continue;
      }
      GroupingGrows(dataMap, Accepted(rows[..i], record), r.value);
      dataMap := dataMap[r.value.key := (if r.value.key in dataMap then dataMap[r.value.key] else []) + [r.value]];
    }
    assert rows[..|rows|] == rows;
  }

  // ---------------------------------------------------------------- what a source sheet becomes

  predicate LongEnough(row: Row, a: nat, c: nat) { a < |row| && c < |row| }

  /** The data rows before row n that reach columns a and c and have the key in column a. */
  ghost function RowsUnder(rows: seq<Row>, a: nat, c: nat, key: string, n: int): set<int> {
    set i | 1 <= i < n && i < |rows| && LongEnough(rows[i], a, c) && CleanKey(rows[i][a]) == key
  }

  /** The cell of the row under a name in the header; empty without such a column or such a cell. */
  ghost predicate IsCellUnder(header: Row, name: string, row: Row, cell: string) {
    && (forall d: nat :: HeadsFirst(header, [name], d) ==> cell == if d < |row| then row[d] else "")
    && (!HasColumn(header, [name]) ==> cell == "")
  }

  /** Row i stands in the group of its key, behind the earlier rows of that key, with its own cells. */
  ghost predicate RowInGroup(rows: seq<Row>, a: nat, c: nat, m: Groups, i: int)
    requires 0 <= i < |rows| && LongEnough(rows[i], a, c)
  {
    var key := CleanKey(rows[i][a]);
    var k := |RowsUnder(rows, a, c, key, i)|;
    && key in m && k < |m[key]|
    && var r := m[key][k];
       && r.key == key && r.callbackParam == rows[i][c]
       && IsCellUnder(rows[0], "advertiser_id", rows[i], r.advertiserId)
       && |r.other| == 2 && IsCellUnder(rows[0], "campaign_id", rows[i], r.other[0])
       && IsCellUnder(rows[0], "oaid_sum", rows[i], r.other[1])
  }

  /** m holds the sheet: each data row that reaches columns a and c once, in order under its key, and nothing else. */
  ghost predicate HoldsSheet(rows: seq<Row>, a: nat, c: nat, m: Groups) {
    && (forall i :: 1 <= i < |rows| && LongEnough(rows[i], a, c) ==> RowInGroup(rows, a, c, m, i))
    && forall key :: if key in m then |m[key]| == |RowsUnder(rows, a, c, key, |rows|)| > 0
                     else RowsUnder(rows, a, c, key, |rows|) == {}
  }

  /** The reader of the rows under a header. */
  function KsReader(header: Row, a: nat, c: nat): Row -> Option<Record> {
    KsRecord(a, c, Column(header, ["advertiser_id"]),
             [Column(header, ["campaign_id"]), Column(header, ["oaid_sum"])])
  }

  lemma CellSpelledOut(header: Row, name: string, row: Row)
    ensures IsCellUnder(header, name, row, CellOr(row, Column(header, [name])))
  {
    hide Column;
    ColumnSpelledOut(header, [name]);
  }

  lemma KsReaderSpelledOut(header: Row, a: nat, c: nat, row: Row)
    ensures var r := KsReader(header, a, c)(row);
            && (r.Some? <==> LongEnough(row, a, c))
            && (r.Some? ==>
                  && r.value.key == CleanKey(row[a]) && r.value.callbackParam == row[c]
                  && IsCellUnder(header, "advertiser_id", row, r.value.advertiserId)
                  && |r.value.other| == 2 && IsCellUnder(header, "campaign_id", row, r.value.other[0])
                  && IsCellUnder(header, "oaid_sum", row, r.value.other[1]))
  {
    hide Column, IsCellUnder, CleanKey;
    CellSpelledOut(header, "advertiser_id", row);
    CellSpelledOut(header, "campaign_id", row);
    CellSpelledOut(header, "oaid_sum", row);
  }

  lemma RowsUnderGrows(rows: seq<Row>, a: nat, c: nat, key: string, n: nat)
    requires 1 <= n < |rows|
    ensures |RowsUnder(rows, a, c, key, n + 1)| == |RowsUnder(rows, a, c, key, n)|
              + if LongEnough(rows[n], a, c) && CleanKey(rows[n][a]) == key then 1 else 0
  {
    hide CleanKey;
    assert RowsUnder(rows, a, c, key, n + 1) == RowsUnder(rows, a, c, key, n)
      + if LongEnough(rows[n], a, c) && CleanKey(rows[n][a]) == key then {n as int} else {};
  }

  /** As many accepted records have the key as data rows have it. */
  lemma {:induction false} RecordsUnderRows(rows: seq<Row>, a: nat, c: nat, header: Row, key: string, n: nat)
    requires 1 <= n <= |rows|
    ensures |Under(Accepted(rows[1..n], KsReader(header, a, c)), key)| == |RowsUnder(rows, a, c, key, n)|
  {
    hide CleanKey, KsReader, LongEnough;
    var reader := KsReader(header, a, c);
    if n == 1 {
      assert rows[1..1] == [] && RowsUnder(rows, a, c, key, 1) == {};
    } else {
      hide Under, RowsUnder;
      RecordsUnderRows(rows, a, c, header, key, n - 1);
      RowsUnderGrows(rows, a, c, key, n - 1);
      assert rows[1..n] == rows[1..n - 1] + [rows[n - 1]];
      KsReaderSpelledOut(header, a, c, rows[n - 1]);
      FilterMapSnoc(reader, rows[1..n - 1], rows[n - 1]);
      UnderSnoc(Accepted(rows[1..n - 1], reader), reader(rows[n - 1]), key);
    }
  }

  lemma UnderSnoc(rs: seq<Record>, r: Option<Record>, key: string)
    ensures |Under(rs + ValueOf(r), key)| == |Under(rs, key)| + if r.Some? && r.value.key == key then 1 else 0
  {
    match r
    case None => assert rs + [] == rs;
    case Some(x) => assert (rs + [x])[..|rs|] == rs;
  }

  /** Row i is accepted as the record its reader makes of it, in its place. */
  lemma RowPlaced(rows: seq<Row>, a: nat, c: nat, i: nat)
    requires 1 <= i < |rows| && LongEnough(rows[i], a, c)
    ensures var reader := KsReader(rows[0], a, c);
            var rs, key := Accepted(rows[1..], reader), CleanKey(rows[i][a]);
            var k := |RowsUnder(rows, a, c, key, i)|;
            reader(rows[i]).Some? && k < |Under(rs, key)| && Under(rs, key)[k] == reader(rows[i]).value
  {
    var key := CleanKey(rows[i][a]);
    hide CleanKey, KsReader, Under, RowsUnder, FilterMap, LongEnough;
    var reader, data := KsReader(rows[0], a, c), rows[1..];
    KsReaderSpelledOut(rows[0], a, c, rows[i]);
    assert data[..i - 1] == rows[1..i] && data[i - 1] == rows[i];
    FilterMapPlace(reader, data, i - 1);
    UnderAt(Accepted(data, reader), |Accepted(data[..i - 1], reader)|);
    RecordsUnderRows(rows, a, c, rows[0], key, i);
  }

  lemma SheetIsHeld(rows: seq<Row>, a: nat, c: nat, m: Groups)
    requires rows != [] && IsGrouping(m, Accepted(rows[1..], KsReader(rows[0], a, c)))
    ensures HoldsSheet(rows, a, c, m)
  {
    hide CleanKey, KsReader, Under, RowsUnder, IsCellUnder;
    var rs := Accepted(rows[1..], KsReader(rows[0], a, c));
    forall i | 1 <= i < |rows| && LongEnough(rows[i], a, c) ensures RowInGroup(rows, a, c, m, i) {
      RowPlaced(rows, a, c, i);
      KsReaderSpelledOut(rows[0], a, c, rows[i]);
      NoneUnder(rs, CleanKey(rows[i][a]));
    }
    forall key ensures if key in m then |m[key]| == |RowsUnder(rows, a, c, key, |rows|)| > 0
                       else RowsUnder(rows, a, c, key, |rows|) == {}
    {
      assert rows[1..|rows|] == rows[1..];
      RecordsUnderRows(rows, a, c, rows[0], key, |rows|);
      NoneUnder(rs, key);
    }
  }

  /** Every record of a group was made from a row, and at position k from the row with k earlier ones. */
  lemma {:induction false} NthRow(rows: seq<Row>, a: nat, c: nat, key: string, n: int, k: nat) returns (i: int)
    requires k < |RowsUnder(rows, a, c, key, n)|
    ensures 1 <= i < n && i < |rows| && LongEnough(rows[i], a, c) && CleanKey(rows[i][a]) == key
    ensures |RowsUnder(rows, a, c, key, i)| == k
    decreases n
  {
    hide CleanKey, LongEnough;
    assert n <= 1 ==> RowsUnder(rows, a, c, key, n) == {};
    if n > |rows| {
      assert RowsUnder(rows, a, c, key, n) == RowsUnder(rows, a, c, key, n - 1);
      i := NthRow(rows, a, c, key, n - 1, k);
    } else {
      RowsUnderGrows(rows, a, c, key, n - 1);
      if k < |RowsUnder(rows, a, c, key, n - 1)| {
        i := NthRow(rows, a, c, key, n - 1, k);
      } else {
        i := n - 1;
      }
    }
  }

  /** The record a callback is made with is the one of a row of the sheet, callback parameter and all. */
  lemma RecordIsRow(rows: seq<Row>, a: nat, c: nat, m: Groups, key: string, k: nat) returns (i: int)
    requires HoldsSheet(rows, a, c, m) && key in m && k < |m[key]|
    ensures 1 <= i < |rows| && LongEnough(rows[i], a, c) && CleanKey(rows[i][a]) == key
    ensures |RowsUnder(rows, a, c, key, i)| == k && m[key][k].callbackParam == rows[i][c]
    ensures IsCellUnder(rows[0], "advertiser_id", rows[i], m[key][k].advertiserId)
  {
    hide CleanKey, RowsUnder, LongEnough, IsCellUnder;
    i := NthRow(rows, a, c, key, |rows|, k);
    assert RowInGroup(rows, a, c, m, i);
  }

  /** There are data rows, and the header names the two required columns. */
  ghost predicate ReadableSource(rows: seq<Row>) {
    |rows| >= 2 && HasColumn(rows[0], ["ad_id"]) && HasColumn(rows[0], ["callback_param"])
  }

  /** The Kuaishou source sheet: a header row that must name the two required columns, then data rows. */
  method ReadKsDataSource(rows: seq<Row>) returns (r: Result<Groups>)
    ensures r.Ok? <==> ReadableSource(rows)
    ensures forall a: nat, c: nat ::
              r.Ok? && HeadsFirst(rows[0], ["ad_id"], a) && HeadsFirst(rows[0], ["callback_param"], c)
              ==> HoldsSheet(rows, a, c, r.value)
  {
    hide IsGrouping, KsRecord, Accepted, Column, HeadsFirst, HasColumn, HoldsSheet;
    if |rows| < 2 {
      return Err("data source file has no data rows");
    }
    var header := rows[0];
    var adIdCol := FindColumnIndex(header, ["ad_id"]);
    var callbackParamCol := FindColumnIndex(header, ["callback_param"]);
    var advertiserIdCol := FindColumnIndex(header, ["advertiser_id"]);
    var campaignIdCol := FindColumnIndex(header, ["campaign_id"]);
    var oaidSumCol := FindColumnIndex(header, ["oaid_sum"]);
    if adIdCol == -1 || callbackParamCol == -1 {
      return Err("required columns (ad_id, callback_param) not found in data source");
    }
    FoundIsColumn(header, ["advertiser_id"], advertiserIdCol);
    FoundIsColumn(header, ["campaign_id"], campaignIdCol);
    FoundIsColumn(header, ["oaid_sum"], oaidSumCol);
    var dataMap := GroupRows(rows[1..],
                             KsRecord(adIdCol, callbackParamCol, advertiserIdCol, [campaignIdCol, oaidSumCol]));
    SheetIsHeld(rows, adIdCol, callbackParamCol, dataMap);
    r := Ok(dataMap);
  }

  lemma FoundIsColumn(header: Row, names: seq<string>, index: int)
    requires index == -1 <==> !HasColumn(header, names)
    requires -1 <= index && forall i: nat :: HeadsFirst(header, names, i) <==> index == i
    ensures index == Column(header, names)
  {
    ColumnSpelledOut(header, names);
    assert index >= 0 ==> HeadsFirst(header, names, index);
  }

  lemma GroupingGrows(m: Groups, rs: seq<Record>, r: Record)
    requires IsGrouping(m, rs)
    ensures IsGrouping(m[r.key := (if r.key in m then m[r.key] else []) + [r]], rs + [r])
  {
    var rs' := rs + [r];
    assert rs'[..|rs|] == rs;
    NoneUnder(rs, r.key);
    var m' := m[r.key := (if r.key in m then m[r.key] else []) + [r]];
    forall k ensures k in m' <==> exists i :: 0 <= i < |rs'| && rs'[i].key == k {
      if k == r.key {
        assert rs'[|rs|].key == k;
      } else if k in m {
        var i :| 0 <= i < |rs| && rs[i].key == k;
        assert rs'[i].key == k;
      }
    }
  }

  lemma UnderTurn(rs: seq<Record>, key: string)
    ensures Under(rs, key) ==
            if rs == [] then []
            else Under(rs[..|rs| - 1], key) + if rs[|rs| - 1].key == key then [rs[|rs| - 1]] else []
  {}

  lemma {:induction false} NoneUnder(rs: seq<Record>, key: string)
    ensures Under(rs, key) == [] <==> forall i :: 0 <= i < |rs| ==> rs[i].key != key
  {
    hide Under;
    UnderTurn(rs, key);
    if rs != [] {
      var init, n := rs[..|rs| - 1], |rs| - 1;
      NoneUnder(init, key);
      assert forall i :: 0 <= i < n ==> rs[i] == init[i];
      assert Under(rs, key) == [] <==> Under(init, key) == [] && rs[n].key != key;
    }
  }

  /** No group is empty; record i stands in the group of its key, behind the earlier ones of that key. */
  lemma GroupsPartition(m: Groups, rs: seq<Record>)
    requires IsGrouping(m, rs)
    ensures forall k :: k in m ==> m[k] != [] && forall r :: r in m[k] ==> r.key == k
    ensures forall i :: 0 <= i < |rs| ==>
              var before := |Under(rs[..i], rs[i].key)|;
              rs[i].key in m && before < |m[rs[i].key]| && m[rs[i].key][before] == rs[i]
  {
    forall k | k in m ensures m[k] != [] && forall r :: r in m[k] ==> r.key == k {
      NoneUnder(rs, k);
      UnderHasKey(rs, k);
    }
    forall i | 0 <= i < |rs|
      ensures var before := |Under(rs[..i], rs[i].key)|;
              before < |Under(rs, rs[i].key)| && Under(rs, rs[i].key)[before] == rs[i]
    {
      UnderAt(rs, i);
    }
  }

  lemma {:induction false} UnderHasKey(rs: seq<Record>, key: string)
    ensures forall r :: r in Under(rs, key) ==> r.key == key
  {
    if rs != [] {
      UnderHasKey(rs[..|rs| - 1], key);
    }
  }

  lemma {:induction false} UnderAt(rs: seq<Record>, i: nat)
    requires i < |rs|
    ensures var before := |Under(rs[..i], rs[i].key)|;
            before < |Under(rs, rs[i].key)| && Under(rs, rs[i].key)[before] == rs[i]
  {
    var init := rs[..|rs| - 1];
    if i < |rs| - 1 {
      UnderAt(init, i);
      assert init[..i] == rs[..i];
    }
  }

  /** Sizes of the groups of the listed keys, added up. */
  function Sizes(rs: seq<Record>, keys: seq<string>): nat {
    if keys == [] then 0 else |Under(rs, keys[0])| + Sizes(rs, keys[1..])
  }

  ghost predicate Distinct(keys: seq<string>) {
    forall i, j :: 0 <= i < j < |keys| ==> keys[i] != keys[j]
  }

  lemma {:induction false} SizesGrow(rs: seq<Record>, keys: seq<string>)
    requires rs != [] && Distinct(keys)
    ensures Sizes(rs, keys) == Sizes(rs[..|rs| - 1], keys) + if rs[|rs| - 1].key in keys then 1 else 0
    decreases keys
  {
    if keys != [] {
      var rest := keys[1..];
      assert forall i :: 0 <= i < |rest| ==> rest[i] == keys[i + 1];
      SizesGrow(rs, rest);
      if rs[|rs| - 1].key == keys[0] {
        assert keys[0] !in rest;
      }
    }
  }

  lemma {:induction false} SizesOfNothing(keys: seq<string>)
    ensures Sizes([], keys) == 0
  {
    if keys != [] {
      SizesOfNothing(keys[1..]);
    }
  }

  /** Over any listing of all the keys, the group sizes add up to the accepted rows. */
  lemma {:induction false} SizesAddUp(rs: seq<Record>, keys: seq<string>)
    requires Distinct(keys) && forall i :: 0 <= i < |rs| ==> rs[i].key in keys
    ensures Sizes(rs, keys) == |rs|
  {
    if rs == [] {
      SizesOfNothing(keys);
    } else {
      SizesGrow(rs, keys);
      SizesAddUp(rs[..|rs| - 1], keys);
    }
  }

  // ---------------------------------------------------------------- dispatch

  datatype Click = Click(adId: string, clickCount: int)

  /** A click row under a clean key; rows too short or without a number are passed over. */
  function ClickOf(row: Row, adIdCol: nat, countCol: nat, atoi: string -> Option<int>): Option<Click> {
    if |row| <= adIdCol || |row| <= countCol || atoi(row[countCol]) == None then None
    else Some(Click(CleanKey(row[adIdCol]), atoi(row[countCol]).value))
  }

  function ClickReader(adIdCol: nat, countCol: nat, atoi: string -> Option<int>): Row -> Option<Click> {
    row => ClickOf(row, adIdCol, countCol, atoi)
  }

  const AD_ID_NAMES := ["广告id", "广告ID", "ad_id"]
  const COUNT_NAMES := ["点击数", "点击次数", "click_count"]

  ghost predicate ReadableClicks(rows: seq<Row>) {
    |rows| >= 2 && HasColumn(rows[0], ["广告id", "广告ID", "ad_id"]) && HasColumn(rows[0], ["点击数", "点击次数", "click_count"])
  }

  /** A click row counts when it reaches both columns and the count is a number. */
  predicate Countable(row: Row, a: nat, n: nat, atoi: string -> Option<int>) {
    LongEnough(row, a, n) && atoi(row[n]).Some?
  }

  ghost function CountableRows(rows: seq<Row>, a: nat, n: nat, atoi: string -> Option<int>, k: int): set<int> {
    set i | 1 <= i < k && i < |rows| && Countable(rows[i], a, n, atoi)
  }

  /** clicks holds the sheet: one entry for each countable data row, in order, with its clean id and its number. */
  ghost predicate HoldsClicks(rows: seq<Row>, a: nat, n: nat, atoi: string -> Option<int>, clicks: seq<Click>) {
    && |clicks| == |CountableRows(rows, a, n, atoi, |rows|)|
    && forall i :: 1 <= i < |rows| && Countable(rows[i], a, n, atoi) ==>
         var k := |CountableRows(rows, a, n, atoi, i)|;
         k < |clicks| && clicks[k].adId == CleanKey(rows[i][a]) && clicks[k].clickCount == atoi(rows[i][n]).value
  }

  lemma {:induction false} ClicksAreHeld(rows: seq<Row>, a: nat, n: nat, atoi: string -> Option<int>)
    requires rows != []
    ensures HoldsClicks(rows, a, n, atoi, FilterMap(ClickReader(a, n, atoi), rows[1..]))
  {
    hide CleanKey, FilterMap;
    var reader, data := ClickReader(a, n, atoi), rows[1..];
    FilterMapCount(reader, data, |data|);
    KeptIsCountable(rows, a, n, atoi, |rows|);
    forall i | 1 <= i < |rows| && Countable(rows[i], a, n, atoi)
      ensures var k := |CountableRows(rows, a, n, atoi, i)|;
              k < |FilterMap(reader, data)| && FilterMap(reader, data)[k] == reader(rows[i]).value
    {
      assert data[i - 1] == rows[i];
      FilterMapAt(reader, data, i - 1);
      KeptIsCountable(rows, a, n, atoi, i);
    }
  }

  /** The rows kept among the data are the countable rows, one index later. */
  lemma {:induction false} KeptIsCountable(rows: seq<Row>, a: nat, n: nat, atoi: string -> Option<int>, k: nat)
    requires 1 <= k <= |rows|
    ensures |Kept(ClickReader(a, n, atoi), rows[1..], k - 1)| == |CountableRows(rows, a, n, atoi, k)|
  {
    hide CleanKey;
    var reader, data := ClickReader(a, n, atoi), rows[1..];
    if k == 1 {
      assert Kept(reader, data, 0) == {} && CountableRows(rows, a, n, atoi, 1) == {};
    } else {
      hide Kept, CountableRows;
      KeptIsCountable(rows, a, n, atoi, k - 1);
      KeptGrows(reader, data, k - 2);
      assert data[k - 2] == rows[k - 1];
      CountableGrows(rows, a, n, atoi, k - 1);
    }
  }

  lemma CountableGrows(rows: seq<Row>, a: nat, n: nat, atoi: string -> Option<int>, k: nat)
    requires 1 <= k < |rows|
    ensures |CountableRows(rows, a, n, atoi, k + 1)| ==
            |CountableRows(rows, a, n, atoi, k)| + if Countable(rows[k], a, n, atoi) then 1 else 0
  {
    hide Countable;
    assert CountableRows(rows, a, n, atoi, k + 1) == CountableRows(rows, a, n, atoi, k)
      + if Countable(rows[k], a, n, atoi) then {k as int} else {};
  }

  /** The click sheet, in the order of its rows. */
  method ReadClickData(rows: seq<Row>, atoi: string -> Option<int>) returns (r: Result<seq<Click>>)
    ensures r.Ok? <==> ReadableClicks(rows)
    ensures forall a: nat, n: nat ::
              r.Ok? && HeadsFirst(rows[0], ["广告id", "广告ID", "ad_id"], a)
              && HeadsFirst(rows[0], ["点击数", "点击次数", "click_count"], n)
              ==> HoldsClicks(rows, a, n, atoi, r.value)
  {
    hide ClickOf, HeadsFirst, HasColumn, HoldsClicks;
    if |rows| < 2 {
      return Err("click data file has no data rows");
    }
    var adIdCol := FindColumnIndex(rows[0], AD_ID_NAMES);
    var clickCountCol := FindColumnIndex(rows[0], COUNT_NAMES);
    if adIdCol == -1 || clickCountCol == -1 {
      return Err("required columns not found in click data");
    }
    var clickDataList: seq<Click> := [];
    var data := rows[1..];
    ghost var reader := ClickReader(adIdCol, clickCountCol, atoi);
    for i := 0 to |data|
      invariant clickDataList == FilterMap(reader, data[..i])
    {
      assert data[..i + 1] == data[..i] + [data[i]];
      FilterMapSnoc(reader, data[..i], data[i]);
      var click := ClickOf(data[i], adIdCol, clickCountCol, atoi);
      if click == None {
        continue;
      }
      clickDataList := clickDataList + [click.value];
    }
    assert data[..|data|] == data;
    ClicksAreHeld(rows, adIdCol, clickCountCol, atoi);
    r := Ok(clickDataList);
  }

  /** White space around the id, in the click sheet or in the source sheet, never decides whether a click
      row finds its group. */
  lemma PaddedIdsMeet(pre: string, post: string, row: Row, adIdCol: nat, countCol: nat, atoi: string -> Option<int>,
                      callbackCol: nat, advertiserCol: int, otherCols: seq<int>)
    requires AllSpace(pre) && AllSpace(post) && adIdCol < |row|
    requires adIdCol != countCol && adIdCol != callbackCol && adIdCol != advertiserCol && adIdCol !in otherCols
    ensures var padded := row[adIdCol := pre + row[adIdCol] + post];
            && ClickOf(padded, adIdCol, countCol, atoi) == ClickOf(row, adIdCol, countCol, atoi)
            && KsRecord(adIdCol, callbackCol, advertiserCol, otherCols)(padded)
               == KsRecord(adIdCol, callbackCol, advertiserCol, otherCols)(row)
  {
    hide CleanKey;
    var padded := row[adIdCol := pre + row[adIdCol] + post];
    PaddingIsInvisible(pre, row[adIdCol], post);
    assert forall i :: 0 <= i < |otherCols| ==> otherCols[i] in otherCols;
    forall i | 0 <= i < |otherCols| ensures CellOr(padded, otherCols[i]) == CellOr(row, otherCols[i]) {}
    assert seq(|otherCols|, i requires 0 <= i < |otherCols| => CellOr(padded, otherCols[i]))
        == seq(|otherCols|, i requires 0 <= i < |otherCols| => CellOr(row, otherCols[i]));
  }

  datatype Detail =
    | Skipped(adId: string, clickCount: int)
    | Completed(adId: string, clickCount: int, executedCount: int, callbacks: seq<string>)

  /** One callback made: the record at a position of the group of a key. */
  datatype Call = Call(key: string, position: nat)

  datatype Summary = Summary(total: nat, success: nat, failed: nat, details: seq<Detail>)

  /** The callbacks of one click row: the first min(count, size) records of its group, none for a count below 1. */
  function CallsOf(m: Groups, click: Click): seq<Call> {
    if click.adId !in m then []
    else
      var n := Executed(m, click);
      seq(if n < 0 then 0 else n, j requires j >= 0 => Call(click.adId, j))
  }

  function Executed(m: Groups, click: Click): int
    requires click.adId in m
  {
    if click.clickCount > |m[click.adId]| then |m[click.adId]| else click.clickCount
  }

  function AllCalls(m: Groups, clicks: seq<Click>): seq<Call> {
    if clicks == [] then [] else AllCalls(m, clicks[..|clicks| - 1]) + CallsOf(m, clicks[|clicks| - 1])
  }

  predicate InGroups(m: Groups, call: Call) {
    call.key in m && call.position < |m[call.key]|
  }

  /** The answer to the n-th callback; the oracle may answer the same record differently each time. */
  type Callback = (nat, Record) -> bool

  function Answer(m: Groups, calls: seq<Call>, send: Callback, n: nat): bool
    requires n < |calls| && InGroups(m, calls[n])
  {
    send(n, m[calls[n].key][calls[n].position])
  }

  /** How many of the first n callbacks succeeded. */
  ghost function Successes(m: Groups, calls: seq<Call>, send: Callback, n: nat): (k: nat)
    requires n <= |calls| && forall i :: 0 <= i < |calls| ==> InGroups(m, calls[i])
    ensures k <= n
  {
    if n == 0 then 0 else Successes(m, calls, send, n - 1) + if Answer(m, calls, send, n - 1) then 1 else 0
  }

  /** The detail of a click row whose first callback is number first. */
  ghost function DetailOf(m: Groups, click: Click, send: Callback, shown: Record -> string, first: nat): Detail {
    if click.adId !in m then Skipped(click.adId, click.clickCount)
    else
      var n := Executed(m, click);
      Completed(click.adId, click.clickCount, n, Results(m[click.adId], send, shown, first, if n < 0 then 0 else n))
  }

  ghost function Results(group: seq<Record>, send: Callback, shown: Record -> string, first: nat, n: nat)
    : seq<string>
    requires n <= |group|
  {
    seq(n, j requires 0 <= j < n => Line(send(first + j, group[j]), shown(group[j])))
  }

  /** How a callback is reported. */
  function Line(ok: bool, param: string): string { (if ok then "Success: " else "Failed: ") + param }

  /** The counters are right for the calls made so far. */
  ghost predicate Tally(m: Groups, calls: seq<Call>, send: Callback, total: nat, success: nat, failed: nat) {
    && (forall i :: 0 <= i < |calls| ==> InGroups(m, calls[i]))
    && total == |calls| == success + failed
    && success == Successes(m, calls, send, |calls|)
  }

  lemma TallyGrows(m: Groups, calls: seq<Call>, send: Callback, total: nat, success: nat, failed: nat, call: Call)
    requires Tally(m, calls, send, total, success, failed) && InGroups(m, call)
    ensures total == |calls|
    ensures if send(total, m[call.key][call.position])
            then Tally(m, calls + [call], send, total + 1, success + 1, failed)
            else Tally(m, calls + [call], send, total + 1, success, failed + 1)
  {
    var calls' := calls + [call];
    assert forall i :: 0 <= i < |calls'| ==> InGroups(m, calls'[i]);
    SuccessesAgree(m, calls', calls, send, |calls|);
    assert calls'[|calls|] == call;
  }

  /** The details are right for the click rows done so far. */
  ghost predicate Told(m: Groups, clicks: seq<Click>, send: Callback, shown: Record -> string, details: seq<Detail>) {
    && |details| <= |clicks|
    && forall i :: 0 <= i < |details| ==>
         details[i] == DetailOf(m, clicks[i], send, shown, |AllCalls(m, clicks[..i])|)
  }

  lemma TurnTaken(m: Groups, clicks: seq<Click>, i: nat)
    requires i < |clicks|
    ensures AllCalls(m, clicks[..i + 1]) == AllCalls(m, clicks[..i]) + CallsOf(m, clicks[i])
    ensures clicks[..|clicks|] == clicks
  {
    assert clicks[..i + 1][..i] == clicks[..i];
  }

  /** The loop over click rows. shown renders the callback parameter for the report. */
  method ProcessClicks(m: Groups, clicks: seq<Click>, send: Callback, shown: Record -> string)
    returns (r: Summary, ghost calls: seq<Call>)
    ensures calls == AllCalls(m, clicks)
    ensures Tally(m, calls, send, r.total, r.success, r.failed)
    ensures |r.details| == |clicks| && Told(m, clicks, send, shown, r.details)
  {
    hide AllCalls, Tally;
    var total: nat, success: nat, failed: nat := 0, 0, 0;
    var details: seq<Detail> := [];
    calls := [];
    Nothing(m, clicks, send);
    for i := 0 to |clicks|
      invariant calls == AllCalls(m, clicks[..i]) && Tally(m, calls, send, total, success, failed)
      invariant |details| == i && Told(m, clicks, send, shown, details)
    {
      TurnTaken(m, clicks, i);
      var click := clicks[i];
      if click.adId !in m {
        assert calls + CallsOf(m, click) == calls;
        details := details + [Skipped(click.adId, click.clickCount)];
        continue;
      }
      var records := m[click.adId];
      var count := click.clickCount;
      if count > |records| {
        count := |records|;
      }
      var callbackResults;
      total, success, failed, callbackResults, calls :=
        Burst(m, click, count, send, shown, total, success, failed, calls);
      details := details + [Completed(click.adId, click.clickCount, count, callbackResults)];
    }
    TurnTakenAll(clicks);
    r := Summary(total, success, failed, details);
  }

  /** Both sheets read, then the callbacks: errors of the source sheet come first. */
  method ProcessKsExcelAndCallback(sourceRows: seq<Row>, clickRows: seq<Row>, atoi: string -> Option<int>,
                                   send: Callback, shown: Record -> string)
    returns (r: Result<Summary>, ghost m: Groups, ghost clicks: seq<Click>, ghost calls: seq<Call>)
    ensures r.Ok? <==> ReadableSource(sourceRows) && ReadableClicks(clickRows)
    ensures forall a: nat, c: nat ::
              r.Ok? && HeadsFirst(sourceRows[0], ["ad_id"], a) && HeadsFirst(sourceRows[0], ["callback_param"], c)
              ==> HoldsSheet(sourceRows, a, c, m)
    ensures forall a: nat, n: nat ::
              r.Ok? && HeadsFirst(clickRows[0], ["广告id", "广告ID", "ad_id"], a)
              && HeadsFirst(clickRows[0], ["点击数", "点击次数", "click_count"], n)
              ==> HoldsClicks(clickRows, a, n, atoi, clicks)
    ensures r.Ok? ==>
              && calls == AllCalls(m, clicks)
              && Tally(m, calls, send, r.value.total, r.value.success, r.value.failed)
              && |r.value.details| == |clicks| && Told(m, clicks, send, shown, r.value.details)
  {
    hide ReadableSource, ReadableClicks, HoldsSheet, HoldsClicks, AllCalls, Tally, Told, HeadsFirst;
    m, clicks, calls := map[], [], [];
    var source := ReadKsDataSource(sourceRows);
    if source.Err? {
      return Err(source.error), m, clicks, calls;
    }
    var clickData := ReadClickData(clickRows, atoi);
    if clickData.Err? {
      return Err(clickData.error), m, clicks, calls;
    }
    m, clicks := source.value, clickData.value;
    var summary;
    summary, calls := ProcessClicks(source.value, clickData.value, send, shown);
    r := Ok(summary);
  }

  /** The inner loop: count callbacks on the group of one click row. */
  method Burst(m: Groups, click: Click, count: int, send: Callback, shown: Record -> string,
               total0: nat, success0: nat, failed0: nat, ghost calls0: seq<Call>)
    returns (total: nat, success: nat, failed: nat, callbackResults: seq<string>, ghost calls: seq<Call>)
    requires click.adId in m && count == Executed(m, click)
    requires Tally(m, calls0, send, total0, success0, failed0)
    ensures calls == calls0 + CallsOf(m, click) && Tally(m, calls, send, total, success, failed)
    ensures callbackResults == Results(m[click.adId], send, shown, |calls0|, if count < 0 then 0 else count)
  {
    hide Successes;
    var records := m[click.adId];
    total, success, failed, calls := total0, success0, failed0, calls0;
    callbackResults := [];
    var i := 0;
    while i < count
      invariant 0 <= i && (i <= count || i == 0)
      invariant calls == calls0 + CallsOf(m, click)[..i]
      invariant Tally(m, calls, send, total, success, failed)
      invariant callbackResults == Results(records, send, shown, |calls0|, i)
    {
      var record := records[i];
      TallyGrows(m, calls, send, total, success, failed, Call(click.adId, i));
      var ok := send(total, record);
      total := total + 1;
      if ok {
        success := success + 1;
        callbackResults := callbackResults + ["Success: " + shown(record)];
      } else {
        failed := failed + 1;
        callbackResults := callbackResults + ["Failed: " + shown(record)];
      }
      calls := calls + [Call(click.adId, i)];
      assert CallsOf(m, click)[..i + 1] == CallsOf(m, click)[..i] + [Call(click.adId, i)];
      i := i + 1;
    }
    assert CallsOf(m, click)[..i] == CallsOf(m, click);
  }

  lemma Nothing(m: Groups, clicks: seq<Click>, send: Callback)
    ensures AllCalls(m, clicks[..0]) == [] && Tally(m, [], send, 0, 0, 0)
  {}

  lemma TurnTakenAll(clicks: seq<Click>)
    ensures clicks[..|clicks|] == clicks
  {}

  lemma {:induction false} SuccessesAgree(m: Groups, calls: seq<Call>, prefix: seq<Call>, send: Callback, k: nat)
    requires k <= |prefix| && prefix <= calls && forall i :: 0 <= i < |calls| ==> InGroups(m, calls[i])
    ensures Successes(m, calls, send, k) == Successes(m, prefix, send, k)
  {
    if k > 0 {
      SuccessesAgree(m, calls, prefix, send, k - 1);
    }
  }

  /** The callbacks a set of click rows asks for. */
  function Asked(m: Groups, clicks: seq<Click>): nat {
    if clicks == [] then 0
    else
      var c := clicks[|clicks| - 1];
      Asked(m, clicks[..|clicks| - 1])
      + if c.adId !in m || c.clickCount <= 0 then 0
        else if c.clickCount <= |m[c.adId]| then c.clickCount
        else |m[c.adId]|
  }

  /** The total is the sum over matched click rows of max(0, min(count, group size)). */
  lemma {:induction false} TotalIsSum(m: Groups, clicks: seq<Click>)
    ensures |AllCalls(m, clicks)| == Asked(m, clicks)
  {
    if clicks != [] {
      TotalIsSum(m, clicks[..|clicks| - 1]);
    }
  }

  /** In which order: the callbacks of click row i come behind those of the rows before it, from the first record of
      the group on. */
  lemma {:induction false} CallNumber(m: Groups, clicks: seq<Click>, i: nat, j: nat)
    requires i < |clicks| && clicks[i].adId in m && j < clicks[i].clickCount && j < |m[clicks[i].adId]|
    ensures Asked(m, clicks[..i]) + j < |AllCalls(m, clicks)|
    ensures AllCalls(m, clicks)[Asked(m, clicks[..i]) + j] == Call(clicks[i].adId, j)
    decreases clicks
  {
    var init := clicks[..|clicks| - 1];
    TotalIsSum(m, init);
    if i < |init| {
      CallNumber(m, init, i, j);
      assert init[..i] == clicks[..i];
    }
  }

  /** The numbers below n of the callbacks that were answered with yes. */
  ghost function Yes(m: Groups, calls: seq<Call>, send: Callback, n: int): set<int>
    requires forall i :: 0 <= i < |calls| ==> InGroups(m, calls[i])
  {
    set i | 0 <= i < |calls| && i < n && InGroups(m, calls[i]) && send(i, m[calls[i].key][calls[i].position])
  }

  lemma YesGrows(m: Groups, calls: seq<Call>, send: Callback, n: nat)
    requires n < |calls| && forall i :: 0 <= i < |calls| ==> InGroups(m, calls[i])
    ensures |Yes(m, calls, send, n + 1)| == |Yes(m, calls, send, n)| + if Answer(m, calls, send, n) then 1 else 0
  {
    assert Yes(m, calls, send, n + 1) == Yes(m, calls, send, n)
      + if Answer(m, calls, send, n) then {n as int} else {};
  }

  /** As many successes are counted as callbacks were answered with yes. */
  lemma {:induction false} SuccessesCounted(m: Groups, calls: seq<Call>, send: Callback, n: nat)
    requires n <= |calls| && forall i :: 0 <= i < |calls| ==> InGroups(m, calls[i])
    ensures Successes(m, calls, send, n) == |Yes(m, calls, send, n)|
  {
    if n == 0 {
      assert Yes(m, calls, send, 0) == {};
    } else {
      hide Yes, Answer;
      SuccessesCounted(m, calls, send, n - 1);
      YesGrows(m, calls, send, n - 1);
    }
  }

  /** The counters of a finished run. */
  lemma TallySpelledOut(m: Groups, calls: seq<Call>, send: Callback, total: nat, success: nat, failed: nat)
    requires Tally(m, calls, send, total, success, failed)
    ensures forall i :: 0 <= i < |calls| ==> InGroups(m, calls[i])
    ensures total == |calls| && success == |Yes(m, calls, send, |calls|)| && failed == total - success
  {
    hide Yes, Successes;
    SuccessesCounted(m, calls, send, |calls|);
  }

  /** Detail i of a finished run: the row's own id and count; skipped without a group; otherwise how many callbacks
      were asked for, capped at the size of the group, and a line for each one made. */
  lemma DetailSpelledOut(m: Groups, clicks: seq<Click>, send: Callback, shown: Record -> string,
                         details: seq<Detail>, i: nat)
    requires |details| == |clicks| && Told(m, clicks, send, shown, details) && i < |clicks|
    ensures details[i].adId == clicks[i].adId && details[i].clickCount == clicks[i].clickCount
    ensures details[i].Skipped? <==> clicks[i].adId !in m
    ensures clicks[i].adId in m ==>
              var d, group := details[i], m[clicks[i].adId];
              && d.executedCount == (if clicks[i].clickCount <= |group| then clicks[i].clickCount else |group|)
              && |d.callbacks| == (if d.executedCount < 0 then 0 else d.executedCount)
              && forall j :: 0 <= j < |d.callbacks| ==>
                   d.callbacks[j] == (if send(Asked(m, clicks[..i]) + j, group[j]) then "Success: " else "Failed: ")
                                     + shown(group[j])
  {
    hide AllCalls, Asked;
    TotalIsSum(m, clicks[..i]);
  }

  /** The click rows of a key that ask for more than j records. */
  function Reaching(clicks: seq<Click>, key: string, j: nat): nat {
    if clicks == [] then 0
    else
      var c := clicks[|clicks| - 1];
      Reaching(clicks[..|clicks| - 1], key, j) + if c.adId == key && c.clickCount > j then 1 else 0
  }

  /** The record at position j of a group is called once for every click row of its key with count above j. */
  lemma {:induction false} CalledExactly(m: Groups, clicks: seq<Click>, key: string, j: nat)
    requires key in m && j < |m[key]|
    ensures multiset(AllCalls(m, clicks))[Call(key, j)] == Reaching(clicks, key, j)
  {
    if clicks != [] {
      CalledExactly(m, clicks[..|clicks| - 1], key, j);
      CalledOnce(m, clicks[|clicks| - 1], key, j);
    }
  }

  lemma CalledOnce(m: Groups, click: Click, key: string, j: nat)
    requires key in m && j < |m[key]|
    ensures multiset(CallsOf(m, click))[Call(key, j)] == if click.adId == key && click.clickCount > j then 1 else 0
  {
    var calls := CallsOf(m, click);
    if click.adId == key && click.clickCount > j {
      assert calls[j] == Call(key, j);
      assert calls == calls[..j] + [calls[j]] + calls[j + 1..];
      assert Call(key, j) !in calls[..j] && Call(key, j) !in calls[j + 1..];
    } else {
      assert Call(key, j) !in calls;
    }
  }
}
