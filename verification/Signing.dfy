/** Request signatures over sorted parameters, and why map iteration order cannot change them. */
module Signing {
  import opened Bytes
  import opened Sequences
  import opened TextCodecs
  import opened Wrappers

  type Params = map<string, string>

  // ---------------------------------------------------------------- the order of sort.Strings

  predicate Less(a: string, b: string) {
    if b == "" then false
    else if a == "" then true
    else a[0] < b[0] || (a[0] == b[0] && Less(a[1..], b[1..]))
  }

  lemma {:induction false} LessTotal(a: string, b: string)
    ensures !(Less(a, b) && Less(b, a)) && !Less(a, a)
    ensures a == b || Less(a, b) || Less(b, a)
  {
    if a != "" && b != "" {
      LessTotal(a[1..], b[1..]);
      assert a == [a[0]] + a[1..] && b == [b[0]] + b[1..];
    }
    LessIrreflexive(a);
  }

  lemma {:induction false} LessIrreflexive(a: string)
    ensures !Less(a, a)
  {
    if a != "" {
      LessIrreflexive(a[1..]);
    }
  }

  lemma {:induction false} LessTransitive(a: string, b: string, c: string)
    requires Less(a, b) && Less(b, c)
    ensures Less(a, c)
  {
    if a != "" && a[0] == b[0] == c[0] {
      LessTransitive(a[1..], b[1..], c[1..]);
    }
  }

  /** a and b agree on their first i characters; then a ends, or has the smaller character. */
  predicate SmallerAt(a: string, b: string, i: nat) {
    i <= |a| && i < |b| && a[..i] == b[..i] && (i == |a| || a[i] < b[i])
  }

  ghost predicate Smaller(a: string, b: string) { exists i: nat :: SmallerAt(a, b, i) }

  /** Less is the order of strings by their first difference. */
  lemma LessSpelledOut(a: string, b: string)
    ensures Less(a, b) <==> Smaller(a, b)
  {
    if Less(a, b) {
      var i := FirstDifference(a, b);
    }
    if i: nat :| SmallerAt(a, b, i) {
      DifferenceDecides(a, b, i);
    }
  }

  lemma {:induction false} FirstDifference(a: string, b: string) returns (i: nat)
    requires Less(a, b)
    ensures SmallerAt(a, b, i)
  {
    if a == "" || a[0] < b[0] {
      i := 0;
    } else {
      var k := FirstDifference(a[1..], b[1..]);
      i := k + 1;
      assert a[..i] == [a[0]] + a[1..][..k] && b[..i] == [b[0]] + b[1..][..k];
    }
  }

  lemma {:induction false} DifferenceDecides(a: string, b: string, i: nat)
    requires SmallerAt(a, b, i)
    ensures Less(a, b)
  {
    if i > 0 {
      assert a[..i][0] == b[..i][0] && a[..i][1..] == a[1..][..i - 1] && b[..i][1..] == b[1..][..i - 1];
      DifferenceDecides(a[1..], b[1..], i - 1);
    }
  }

  /** In order and without repetition. */
  ghost predicate Ascending(ks: seq<string>) {
    forall i, j :: 0 <= i < j < |ks| ==> Less(ks[i], ks[j])
  }

  ghost predicate Lists(ks: seq<string>, keys: set<string>) {
    Ascending(ks) && forall k :: k in ks <==> k in keys
  }

  /** A listing holds exactly the keys, each before all that are greater at the first difference. */
  lemma ListsSpelledOut(ks: seq<string>, keys: set<string>)
    ensures Lists(ks, keys) <==>
            (forall k :: k in ks <==> k in keys) && forall i, j :: 0 <= i < j < |ks| ==> Smaller(ks[i], ks[j])
  {
    hide Less, Smaller;
    forall i, j | 0 <= i < j < |ks| ensures Less(ks[i], ks[j]) <==> Smaller(ks[i], ks[j]) {
      LessSpelledOut(ks[i], ks[j]);
    }
  }

  /** A set of keys has only one ascending listing. */
  lemma {:induction false} ListingUnique(ks: seq<string>, ls: seq<string>, keys: set<string>)
    requires Lists(ks, keys) && Lists(ls, keys)
    ensures ks == ls
    decreases |ks|
  {
    ListsNothing(ks, keys);
    ListsNothing(ls, keys);
    if ks != [] {
      assert ks[0] in keys && ks[0] in ls && ls[0] in keys && ls[0] in ks;
      FirstIsLeast(ks, ls[0]);
      FirstIsLeast(ls, ks[0]);
      LessTotal(ks[0], ls[0]);
      RestLists(ks, keys);
      RestLists(ls, keys);
      ListingUnique(ks[1..], ls[1..], keys - {ks[0]});
      assert ks == [ks[0]] + ks[1..] && ls == [ls[0]] + ls[1..];
    }
  }

  lemma ListsNothing(ks: seq<string>, keys: set<string>)
    requires Lists(ks, keys)
    ensures ks == [] <==> keys == {}
  {
    if ks != [] {
      assert ks[0] in keys;
    }
  }

  lemma FirstIsLeast(ks: seq<string>, k: string)
    requires Ascending(ks) && k in ks
    ensures k == ks[0] || Less(ks[0], k)
  {}

  lemma RestLists(ks: seq<string>, keys: set<string>)
    requires ks != [] && Lists(ks, keys)
    ensures Lists(ks[1..], keys - {ks[0]})
  {
    var rest := ks[1..];
    assert forall i :: 0 <= i < |rest| ==> rest[i] == ks[i + 1];
    forall k | k in rest ensures k in keys - {ks[0]} {
      var i :| 0 <= i < |rest| && rest[i] == k;
      LessIrreflexive(k);
      assert Less(ks[0], ks[i + 1]);
    }
    forall k | k in keys - {ks[0]} ensures k in rest {
      var i :| 0 <= i < |ks| && ks[i] == k;
      assert rest[i - 1] == k;
    }
  }

  /** k put in its place. */
  function Insert(k: string, ks: seq<string>): seq<string> {
    if ks == [] || Less(k, ks[0]) then [k] + ks else [ks[0]] + Insert(k, ks[1..])
  }

  lemma {:induction false} InsertKeepsOrder(k: string, ks: seq<string>)
    requires Ascending(ks) && k !in ks
    ensures Ascending(Insert(k, ks))
    ensures forall x :: x in Insert(k, ks) <==> x == k || x in ks
  {
    if ks == [] {
    } else if Less(k, ks[0]) {
      forall j | 0 <= j < |ks| ensures Less(k, ks[j]) {
        if j > 0 {
          LessTransitive(k, ks[0], ks[j]);
        }
      }
    } else {
      var rest := ks[1..];
      assert forall i :: 0 <= i < |rest| ==> rest[i] == ks[i + 1];
      InsertKeepsOrder(k, rest);
      LessTotal(k, ks[0]);
      var tail := Insert(k, rest);
      forall j | 0 <= j < |tail| ensures Less(ks[0], tail[j]) {
        assert tail[j] in tail;
        if tail[j] != k {
          var i :| 0 <= i < |rest| && rest[i] == tail[j];
        }
      }
      assert ks == [ks[0]] + rest;
    }
  }

  /** sort.Strings on keys without repetition. */
  method SortStrings(keys: seq<string>, ghost all: set<string>) returns (sorted: seq<string>)
    requires forall i, j :: 0 <= i < j < |keys| ==> keys[i] != keys[j]
    requires forall k :: k in keys <==> k in all
    ensures Lists(sorted, all)
  {
    sorted := [];
    for i := 0 to |keys|
      invariant Ascending(sorted)
      invariant forall k :: k in sorted <==> k in keys[..i]
    {
      InsertKeepsOrder(keys[i], sorted);
      sorted := Insert(keys[i], sorted);
    }
    assert keys[..|keys|] == keys;
  }

  /** Ranging over a map: its keys, each once, in whatever order. */
  method KeysOf(params: Params) returns (keys: seq<string>)
    ensures forall i, j :: 0 <= i < j < |keys| ==> keys[i] != keys[j]
    ensures forall k :: k in keys <==> k in params
  {
    keys := [];
    var left := params.Keys;
    while left != {}
      invariant left <= params.Keys
      invariant forall i, j :: 0 <= i < j < |keys| ==> keys[i] != keys[j]
      invariant forall k :: k in keys <==> k in params && k !in left
      decreases |left|
    {
      var k :| k in left;
      keys := keys + [k];
      left := left - {k};
    }
  }

  // ---------------------------------------------------------------- the signed text

  /** Every key with its value behind it, in the order of ks. */
  function Pairs(params: Params, ks: seq<string>): string
    requires forall k :: k in ks ==> k in params
  {
    if ks == [] then "" else ks[0] + params[ks[0]] + Pairs(params, ks[1..])
  }

  lemma {:induction false} PairsSnoc(params: Params, ks: seq<string>, k: string)
    requires forall x :: x in ks + [k] ==> x in params
    ensures Pairs(params, ks + [k]) == Pairs(params, ks) + k + params[k]
    ensures Pairs(params, []) == ""
    decreases ks
  {
    if ks == [] {
      assert [k][1..] == [];
      assert Pairs(params, [k]) == k + params[k] + "";
      assert ks + [k] == [k];
    } else {
      assert (ks + [k])[1..] == ks[1..] + [k];
      PairsSnoc(params, ks[1..], k);
      var a, b := ks[0] + params[ks[0]], Pairs(params, ks[1..]);
      assert a + (b + k + params[k]) == (a + b) + k + params[k];
    }
  }

  /** text is the string signed for params: it speaks of the map and of no iteration order. */
  ghost predicate IsPairsOf(params: Params, text: string) {
    exists ks :: Lists(ks, params.Keys) && text == Pairs(params, ks)
  }

  /** A map has exactly one such text, so its signature does not depend on how the map was ranged over. */
  lemma PairsTextUnique(params: Params, x: string, y: string)
    requires IsPairsOf(params, x) && IsPairsOf(params, y)
    ensures x == y
  {
    var ks :| Lists(ks, params.Keys) && x == Pairs(params, ks);
    var ls :| Lists(ls, params.Keys) && y == Pairs(params, ls);
    ListingUnique(ks, ls, params.Keys);
  }

  /** Two keys: what stands in the text, and in which order. */
  lemma TwoPairs(params: Params, k: string, l: string)
    requires params.Keys == {k, l} && Smaller(k, l)
    ensures IsPairsOf(params, k + params[k] + l + params[l])
  {
    LessSpelledOut(k, l);
    var ks := [k, l];
    assert Lists(ks, params.Keys);
    PairsSnoc(params, [], k);
    PairsSnoc(params, [k], l);
    assert [] + [k] == [k] && [k] + [l] == ks;
    assert "" + k + params[k] == k + params[k];
  }

  /** So "app_key" comes before "method". */
  lemma PairsExample(key: string, name: string)
    ensures IsPairsOf(map["method" := name, "app_key" := key], "app_key" + key + "method" + name)
  {
    assert SmallerAt("app_key", "method", 0);
    TwoPairs(map["method" := name, "app_key" := key], "app_key", "method");
  }

  method WritePairs(params: Params) returns (text: string)
    ensures IsPairsOf(params, text)
  {
    var keys := KeysOf(params);
    keys := SortStrings(keys, params.Keys);
    text := "";
    for i := 0 to |keys|
      invariant text == Pairs(params, keys[..i])
    {
      PairsSnoc(params, keys[..i], keys[i]);
      assert keys[..i + 1] == keys[..i] + [keys[i]];
      text := text + keys[i] + params[keys[i]];
    }
    assert keys[..|keys|] == keys;
  }

  // ---------------------------------------------------------------- JD and TOP

  /** MD5, left open here. */
  type Digest = string -> Bytes

  /** The signature is the digest of the text and the body between two copies of the secret, in upper-case hex. */
  ghost predicate IsSignature(sign: string, params: Params, body: string, secret: string, digest: Digest) {
    exists text :: IsPairsOf(params, text) && sign == ToUpper(HexEncode(digest(secret + text + body + secret)))
  }

  lemma SignatureUnique(s: string, t: string, params: Params, body: string, secret: string, digest: Digest)
    requires IsSignature(s, params, body, secret, digest) && IsSignature(t, params, body, secret, digest)
    ensures s == t
  {
    var x :| IsPairsOf(params, x) && s == ToUpper(HexEncode(digest(secret + x + body + secret)));
    var y :| IsPairsOf(params, y) && t == ToUpper(HexEncode(digest(secret + y + body + secret)));
    PairsTextUnique(params, x, y);
  }

  method GenerateJdSign(params: Params, appSecret: string, digest: Digest) returns (sign: string)
    ensures exists text :: IsPairsOf(params, text) && sign == ToUpper(HexEncode(digest(appSecret + text + appSecret)))
  {
    var signStr := WritePairs(params);
    sign := ToUpper(HexEncode(digest(appSecret + signStr + appSecret)));
  }

  /** What setCommonParams leaves in the map. */
  function Common(params: Params, appKey: string, session: string, timestamp: string): Params {
    var ps := params["app_key" := appKey]["timestamp" := timestamp]["format" := "json"]["v" := "2.0"]
                    ["sign_method" := "md5"];
    if session != "" then ps["session" := session] else ps
  }

  /** Parameters of the TOP client, a map changed in place; values stand as the strings they are sent as. */
  class Parameters {
    var m: Params

    constructor (m: Params)
      ensures this.m == m
    {
      this.m := m;
    }

    method SetCommonParams(appKey: string, session: string, timestamp: string)
      modifies this
      ensures m == Common(old(m), appKey, session, timestamp)
    {
      m := m["app_key" := appKey];
      m := m["timestamp" := timestamp];
      m := m["format" := "json"];
      m := m["v" := "2.0"];
      m := m["sign_method" := "md5"];
      if session != "" {
        m := m["session" := session];
      }
    }

    method Sign(appSecret: string, body: string, digest: Digest)
      modifies this
      ensures "sign" in m && m == old(m)["sign" := m["sign"]]
      ensures IsSignature(m["sign"], old(m), body, appSecret, digest)
    {
      var text := WritePairs(m);
      var query := appSecret + text;
      if body != "" {
        query := query + body;
      }
      query := query + appSecret;
      assert query == appSecret + text + body + appSecret;
      m := m["sign" := ToUpper(HexEncode(digest(query)))];
    }
  }

  // ---------------------------------------------------------------- paging through orders

  datatype Client = Client(appKey: string, appSecret: string, session: string, digest: Digest)

  /** The parameters that are signed for a call. */
  function Prepared(c: Client, apiName: string, params: Params, timestamp: string): Params {
    Common(params["method" := apiName], c.appKey, c.session, timestamp)
  }

  /** request is params prepared for the call, and its signature. */
  ghost predicate IsSignedRequest(c: Client, apiName: string, params: Params, timestamp: string, request: Params) {
    var signed := Prepared(c, apiName, params, timestamp);
    && "sign" in request && request == signed["sign" := request["sign"]]
    && IsSignature(request["sign"], signed, "", c.appSecret, c.digest)
  }

  method DoJson<R>(c: Client, apiName: string, param: Parameters, timestamp: string, server: Params -> R) returns (r: R)
    modifies param
    ensures IsSignedRequest(c, apiName, old(param.m), timestamp, param.m)
    ensures r == server(param.m)
  {
    param.m := param.m["method" := apiName];
    param.SetCommonParams(c.appKey, c.session, timestamp);
    param.Sign(c.appSecret, "", c.digest);
    r := server(param.m);
  }

  const PAGE_KEY := "trade_order_vo"

  const CALL_KEYS := {PAGE_KEY, "method", "app_key", "timestamp", "format", "v", "sign_method", "session"}

  /** What a signature covers for one page: the caller's parameters as they are, the page, the method and the
      common parameters. A "sign" is among them only if the caller put it there. */
  lemma SignedParameters(c: Client, apiName: string, base: Params, page: string, timestamp: string)
    ensures var signed := Prepared(c, apiName, base[PAGE_KEY := page], timestamp);
            && signed.Keys ==
               base.Keys + CALL_KEYS - (if c.session == "" && "session" !in base then {"session"} else {})
            && (forall k :: k in base && k !in CALL_KEYS ==> signed[k] == base[k])
            && ("sign" in signed <==> "sign" in base)
            && signed["trade_order_vo"] == page && signed["method"] == apiName && signed["app_key"] == c.appKey
            && signed["timestamp"] == timestamp && signed["sign_method"] == "md5"
            && signed["format"] == "json" && signed["v"] == "2.0"
            && (c.session != "" ==> signed["session"] == c.session)
            && (c.session == "" && "session" in base ==> signed["session"] == base["session"])
  {}

  /** A page: a transport error, no list, or items of which some do not decode. */
  datatype Page<T> = Error(e: string) | NoList | Items(items: seq<Option<T>>, nextPage: bool)

  function Itself<T>(item: Option<T>): Option<T> { item }

  /** The items that decode, in order. */
  function Decoded<T>(items: seq<Option<T>>): seq<T> { FilterMap(Itself, items) }

  /** As many as there are decodable items, and each behind those of the items before it. */
  lemma DecodedExactly<T>(items: seq<Option<T>>)
    ensures |Decoded(items)| == |set i | 0 <= i < |items| && items[i].Some?|
    ensures forall i :: 0 <= i < |items| && items[i].Some? ==>
              var before := |set k | 0 <= k < i && items[k].Some?|;
              before < |Decoded(items)| && Decoded(items)[before] == items[i].value
  {
    FilterMapCount(Itself, items, |items|);
    assert Kept(Itself, items, |items|) == set i | 0 <= i < |items| && items[i].Some?;
    forall i | 0 <= i < |items| && items[i].Some?
      ensures var before := |set k | 0 <= k < i && items[k].Some?|;
              before < |Decoded(items)| && Decoded(items)[before] == items[i].value
    {
      FilterMapAt(Itself, items, i);
      assert Kept(Itself, items, i) == set k | 0 <= k < i && items[k].Some?;
    }
  }

  /** The items of a page that decode, behind those gathered so far. */
  method AppendItems<T>(sofar: seq<T>, items: seq<Option<T>>) returns (allItems: seq<T>)
    ensures allItems == sofar + Decoded(items)
  {
    allItems := sofar;
    for i := 0 to |items|
      invariant allItems == sofar + Decoded(items[..i])
    {
      assert items[..i + 1] == items[..i] + [items[i]];
      FilterMapSnoc(Itself, items[..i], items[i]);
      if items[i].None? {
        continue;
      }
      allItems := allItems + [items[i].value];
    }
    assert items[..|items|] == items;
  }

  /** The answers of a run, page after page: the list it returns. */
  function Gathered<T>(pages: seq<Page<T>>): Result<seq<T>> {
    if pages == [] then Ok([])
    else match pages[0]
      case Error(e) => Err(e)
      case NoList => Ok([])
      case Items(items, next) =>
        if !next then Ok(Decoded(items))
        else match Gathered(pages[1..])
          case Err(e) => Err(e)
          case Ok(more) => Ok(Decoded(items) + more)
  }

  ghost predicate Stops<T>(page: Page<T>) { page.Items? ==> !page.nextPage }

  ghost predicate AllContinue<T>(pages: seq<Page<T>>) {
    forall i :: 0 <= i < |pages| ==> !Stops(pages[i])
  }

  /** Only the last page of a run stops it. */
  ghost predicate RunsThrough<T>(pages: seq<Page<T>>) {
    pages != [] && AllContinue(pages[..|pages| - 1]) && Stops(pages[|pages| - 1])
  }

  lemma RunGoesOn<T>(pages: seq<Page<T>>, page: Page<T>)
    requires AllContinue(pages)
    ensures if Stops(page) then RunsThrough(pages + [page]) else AllContinue(pages + [page])
  {}

  /** Request n was signed for page n from the caller's parameters base, and pages[n] answered it. */
  ghost predicate Sent<T>(c: Client, apiName: string, base: Params, vo: nat -> string, clock: nat -> string,
                          server: Params -> Page<T>, requests: seq<Params>, pages: seq<Page<T>>) {
    && |requests| == |pages|
    && forall n :: 0 <= n < |requests| ==>
         IsSignedRequest(c, apiName, base[PAGE_KEY := vo(n + 1)], clock(n + 1), requests[n])
         && pages[n] == server(requests[n])
  }

  lemma SentSnoc<T>(c: Client, apiName: string, base: Params, vo: nat -> string, clock: nat -> string,
                    server: Params -> Page<T>, requests: seq<Params>, pages: seq<Page<T>>, request: Params)
    requires Sent(c, apiName, base, vo, clock, server, requests, pages)
    requires var n := |requests| + 1; IsSignedRequest(c, apiName, base[PAGE_KEY := vo(n)], clock(n), request)
    ensures Sent(c, apiName, base, vo, clock, server, requests + [request], pages + [server(request)])
  {}

  lemma {:induction false} GatheredSnoc<T>(pages: seq<Page<T>>, page: Page<T>)
    requires AllContinue(pages) && Gathered(pages).Ok?
    ensures Gathered(pages + [page]) ==
            match page
            case Error(e) => Err(e)
            case NoList => Gathered(pages)
            case Items(items, _) => Ok(Gathered(pages).value + Decoded(items))
    decreases pages
  {
    if pages == [] {
      assert pages + [page] == [page] && [page][1..] == [];
      assert page.Items? ==> [] + Decoded(page.items) == Decoded(page.items) + [] == Decoded(page.items);
    } else {
      assert (pages + [page])[1..] == pages[1..] + [page];
      GatheredSnoc(pages[1..], page);
      if page.Items? {
        var a, b := Decoded(pages[0].items), Gathered(pages[1..]).value;
        assert a + (b + Decoded(page.items)) == (a + b) + Decoded(page.items);
      }
    }
  }

  /** The caller's parameters copied key by key. */
  method Copy(params: Parameters) returns (copied: Parameters)
    ensures fresh(copied) && copied.m == params.m
  {
    copied := new Parameters(map[]);
    var keys := KeysOf(params.m);
    for i := 0 to |keys|
      invariant copied.m == map k | k in keys[..i] :: params.m[k]
    {
      copied.m := copied.m[keys[i] := params.m[keys[i]]];
      assert keys[..i + 1] == keys[..i] + [keys[i]];
    }
    assert keys[..|keys|] == keys;
  }

  /** What a page lists; nothing when it has no list. */
  function ItemLists<T>(pages: seq<Page<T>>): (ls: seq<seq<Option<T>>>)
    ensures |ls| == |pages|
    ensures forall i :: 0 <= i < |ls| ==> if pages[i].Items? then ls[i] == pages[i].items else ls[i] == []
  {
    seq(|pages|, i requires 0 <= i < |pages| => if pages[i].Items? then pages[i].items else [])
  }

  /** A run has pages with a successor and then one that ends it. */
  lemma RunShape<T>(pages: seq<Page<T>>)
    requires RunsThrough(pages)
    ensures pages != [] && (pages[|pages| - 1].Items? ==> !pages[|pages| - 1].nextPage)
    ensures forall i :: 0 <= i < |pages| - 1 ==> pages[i].Items? && pages[i].nextPage
  {
    var init := pages[..|pages| - 1];
    assert forall i :: 0 <= i < |init| ==> init[i] == pages[i];
  }

  /** It fails with the error of its last page; otherwise it returns the decodable items of all its pages, one page
      behind the other. */
  lemma RunReturns<T>(pages: seq<Page<T>>)
    requires RunsThrough(pages)
    ensures Gathered(pages) == if pages[|pages| - 1].Error? then Err(pages[|pages| - 1].e)
                               else Ok(Decoded(Concat(ItemLists(pages))))
  {
    hide Gathered, Decoded, Concat, AllContinue, Stops, ItemLists;
    var init, last := pages[..|pages| - 1], pages[|pages| - 1];
    assert pages == init + [last];
    ContinuedReturns(init);
    GatheredSnoc(init, last);
    ListsSnoc(init, last);
  }

  lemma ListsSnoc<T>(pages: seq<Page<T>>, page: Page<T>)
    ensures var before := Decoded(Concat(ItemLists(pages)));
            Decoded(Concat(ItemLists(pages + [page]))) == if page.Items? then before + Decoded(page.items) else before
  {
    hide FilterMap, Concat;
    var x := if page.Items? then page.items else [];
    assert ItemLists(pages + [page]) == ItemLists(pages) + [x];
    ConcatSnoc(ItemLists(pages), x);
    FilterMapJoins(Itself, Concat(ItemLists(pages)), x);
    FilterMapNothing(Itself<T>);
    assert Decoded(Concat(ItemLists(pages))) + [] == Decoded(Concat(ItemLists(pages)));
  }

  lemma {:induction false} ContinuedReturns<T>(pages: seq<Page<T>>)
    requires AllContinue(pages)
    ensures Gathered(pages) == Ok(Decoded(Concat(ItemLists(pages))))
    decreases |pages|
  {
    if pages == [] {
      assert ItemLists(pages) == [];
      assert Concat<Option<T>>([]) == [];
    } else {
      hide Gathered, Decoded, Concat;
      var init, last := pages[..|pages| - 1], pages[|pages| - 1];
      assert pages == init + [last];
      ContinuedReturns(init);
      GatheredSnoc(init, last);
      ListsSnoc(init, last);
    }
  }

  /** One page: the call signs and extends a fresh copy of the parameters, never the parameters themselves. */
  method AskPage<R>(c: Client, apiName: string, baseParams: Parameters, timestamp: string, server: Params -> R)
    returns (resp: R, request: Params)
    ensures IsSignedRequest(c, apiName, baseParams.m, timestamp, request) && resp == server(request)
  {
    hide IsSignedRequest;
    var paramsCopy := Copy(baseParams);
    resp := DoJson(c, apiName, paramsCopy, timestamp, server);
    request := paramsCopy.m;
  }

  lemma PageIsSent(c: Client, apiName: string, base: Params, page: string, timestamp: string, request: Params)
    requires IsSignedRequest(c, apiName, base[PAGE_KEY := page], timestamp, request)
    ensures PAGE_KEY in request && request[PAGE_KEY] == page
  {
    hide IsSignature;
  }

  /** Whatever else a request says, page last ends the run. */
  ghost predicate EndsAt<T>(server: Params -> Page<T>, vo: nat -> string, last: nat) {
    forall request: Params :: PAGE_KEY in request && request[PAGE_KEY] == vo(last) ==> Stops(server(request))
  }

  /** A run that goes on has not come to a page that ends it. */
  lemma StillBefore<T>(c: Client, apiName: string, base: Params, vo: nat -> string, clock: nat -> string,
                       server: Params -> Page<T>, requests: seq<Params>, pages: seq<Page<T>>, last: nat)
    requires Sent(c, apiName, base, vo, clock, server, requests, pages) && AllContinue(pages)
    requires last >= 1 && EndsAt(server, vo, last)
    ensures |pages| < last
  {
    hide IsSignedRequest, Stops;
    if last <= |pages| {
      PageIsSent(c, apiName, base, vo(last), clock(last), requests[last - 1]);
    }
  }

  /** The first turns of a run: pages are asked for until one has no successor; None when that has not happened by
      then. Each request is signed from the caller's own parameters, on a fresh copy: baseParams ends with the last
      page entry and nothing else new. vo renders the page entry, clock gives the timestamp of each page. */
  method QueryAllPagedOrders<T>(c: Client, apiName: string, baseParams: Parameters, vo: nat -> string,
                                clock: nat -> string, server: Params -> Page<T>, turns: nat)
    returns (r: Option<Result<seq<T>>>, ghost requests: seq<Params>, ghost pages: seq<Page<T>>)
    modifies baseParams
    ensures Sent(c, apiName, old(baseParams.m), vo, clock, server, requests, pages)
    ensures if r.Some? then |pages| <= turns && RunsThrough(pages) && r.value == Gathered(pages)
            else |pages| == turns && AllContinue(pages)
    ensures forall last :: 1 <= last <= turns && EndsAt(server, vo, last) ==> r.Some? && |pages| <= last
    ensures baseParams.m ==
            if pages == [] then old(baseParams.m) else old(baseParams.m)[PAGE_KEY := vo(|pages|)]
  {
    hide IsSignedRequest, Gathered, Decoded, Sent, AllContinue, RunsThrough, EndsAt, Stops;
    requests, pages := [], [];
    var allItems: seq<T> := [];
    var pageNo: nat := 1;
    ghost var base := baseParams.m;
    NothingSent(c, apiName, base, vo, clock, server);
    while pageNo <= turns
      invariant 1 <= pageNo <= turns + 1 && |requests| == |pages| == pageNo - 1
      invariant baseParams.m == if pages == [] then base else base[PAGE_KEY := vo(|pages|)]
      invariant Sent(c, apiName, base, vo, clock, server, requests, pages)
      invariant AllContinue(pages)
      invariant Gathered(pages) == Ok(allItems)
    {
      forall last | 1 <= last && EndsAt(server, vo, last) ensures |pages| < last {
        StillBefore(c, apiName, base, vo, clock, server, requests, pages, last);
      }
      baseParams.m := baseParams.m[PAGE_KEY := vo(pageNo)];
      assert baseParams.m == base[PAGE_KEY := vo(pageNo)];
      var resp, request := AskPage(c, apiName, baseParams, clock(pageNo), server);
      SentSnoc(c, apiName, base, vo, clock, server, requests, pages, request);
      OneMorePage(pages, resp, allItems);
      requests, pages := requests + [request], pages + [resp];
      match resp {
        case Error(e) => return Some(Err(e)), requests, pages;
        case NoList => return Some(Ok(allItems)), requests, pages;
        case Items(items, nextPage) =>
          var list := AppendItems(allItems, items);
          allItems := list;
          if !nextPage {
            return Some(Ok(allItems)), requests, pages;
          }
      }
      pageNo := pageNo + 1;
    }
    forall last | 1 <= last && EndsAt(server, vo, last) ensures |pages| < last {
      StillBefore(c, apiName, base, vo, clock, server, requests, pages, last);
    }
    r := None;
  }

  /** What a page does to a run that got as far as allItems. */
  lemma OneMorePage<T>(pages: seq<Page<T>>, page: Page<T>, allItems: seq<T>)
    requires AllContinue(pages) && Gathered(pages) == Ok(allItems)
    ensures match page
            case Error(e) => RunsThrough(pages + [page]) && Gathered(pages + [page]) == Err(e)
            case NoList => RunsThrough(pages + [page]) && Gathered(pages + [page]) == Ok(allItems)
            case Items(items, next) =>
              Gathered(pages + [page]) == Ok(allItems + Decoded(items))
              && if next then AllContinue(pages + [page]) else RunsThrough(pages + [page])
  {
    hide Gathered, Decoded, AllContinue, RunsThrough;
    RunGoesOn(pages, page);
    GatheredSnoc(pages, page);
  }

  lemma NothingSent<T>(c: Client, apiName: string, base: Params, vo: nat -> string, clock: nat -> string,
                       server: Params -> Page<T>)
    ensures Sent(c, apiName, base, vo, clock, server, [], []) && AllContinue<T>([]) && Gathered<T>([]) == Ok([])
  {}
}
