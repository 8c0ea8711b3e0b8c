/** The non-geographic part of `generate_ip_map`: counting the IP lines, turning the
    geolocation JSON into one IP-to-record mapping, choosing the IPs that get a map row,
    and choosing the boundary layer for the administrative level. */
module IpMap {
  import opened Sequences
  import opened Text

  /** A parsed JSON value. Numbers are modelled as integers. */
  datatype Json =
    | JNull
    | JBool(b: bool)
    | JNumber(n: int)
    | JString(s: string)
    | JArray(items: seq<Json>)
    | JObject(fields: map<string, Json>)

  /** Python truthiness of a parsed JSON value. */
  predicate Truthy(j: Json) {
    match j
    case JNull => false
    case JBool(b) => b
    case JNumber(n) => n != 0
    case JString(s) => s != ""
    case JArray(items) => items != []
    case JObject(fields) => fields != map[]
  }

  // ----- ip_counts -----

  /** The stripped lines of the IP file that are not blank, in file order. */
  function NonBlank(lines: seq<string>): (r: seq<string>)
    ensures forall k :: 0 <= k < |r| ==> r[k] != "" && Strip(r[k]) == r[k]
  {
    if lines == [] then []
    else
      var s := Strip(lines[|lines| - 1]);
      StripIdempotent(lines[|lines| - 1]);
      NonBlank(lines[..|lines| - 1]) + (if s != "" then [s] else [])
  }

  /** A `Counter`: its keys in first-insertion order, which is the order `items()` gives,
      and the count of each key. */
  datatype Counter = Counter(keys: seq<string>, count: map<string, nat>)

  /** `Counter(line.strip() for line in lines if line.strip())`, built one line at a
      time as the constructor does. */
  function IpCounts(lines: seq<string>): (c: Counter)
    ensures forall x :: x in c.keys ==> x in c.count
  {
    if lines == [] then Counter([], map[])
    else
      var c0 := IpCounts(lines[..|lines| - 1]);
      var s := Strip(lines[|lines| - 1]);
      if s == "" then c0
      else if s in c0.count then Counter(c0.keys, c0.count[s := c0.count[s] + 1])
      else Counter(c0.keys + [s], c0.count[s := 1])
  }

  lemma NonBlankSnoc(lines: seq<string>)
    requires lines != []
    ensures var s := Strip(lines[|lines| - 1]);
            NonBlank(lines) == NonBlank(lines[..|lines| - 1]) + (if s != "" then [s] else [])
  {
  }

  /** A line is counted exactly when it is one of the stripped non-blank lines. */
  lemma {:induction false} IpCountsDomain(lines: seq<string>)
    ensures forall x :: x in IpCounts(lines).count <==> x in NonBlank(lines)
  {
    if lines != [] {
      var init := lines[..|lines| - 1];
      IpCountsDomain(init);
      NonBlankSnoc(lines);
      var ips0, ips := NonBlank(init), NonBlank(lines);
      var s := Strip(lines[|lines| - 1]);
      if s != "" {
        assert ips == ips0 + [s];
        assert forall x :: x in ips <==> x in ips0 || x == s;
      } else {
        assert ips == ips0;
      }
    }
  }

  /** The keys are the stripped non-blank lines in order of first occurrence. */
  lemma {:induction false} IpCountsKeys(lines: seq<string>)
    ensures IpCounts(lines).keys == FirstOccurrences(NonBlank(lines))
  {
    if lines != [] {
      var init := lines[..|lines| - 1];
      IpCountsKeys(init);
      IpCountsDomain(init);
      NonBlankSnoc(lines);
      var ips0, ips := NonBlank(init), NonBlank(lines);
      var s := Strip(lines[|lines| - 1]);
      if s != "" {
        assert ips == ips0 + [s];
        assert ips[..|ips| - 1] == ips0;
        assert FirstOccurrences(ips) == FirstOccurrences(ips0) + (if s in ips0 then [] else [s]);
      } else {
        assert ips == ips0;
      }
    }
  }

  /** Each key counts the lines that strip to it; blank lines count for nothing. */
  lemma {:induction false} IpCountsCounts(lines: seq<string>)
    ensures forall x :: x in IpCounts(lines).count ==> IpCounts(lines).count[x] == multiset(NonBlank(lines))[x]
  {
    if lines != [] {
      var init := lines[..|lines| - 1];
      IpCountsCounts(init);
      IpCountsDomain(init);
      NonBlankSnoc(lines);
      var ips0, ips := NonBlank(init), NonBlank(lines);
      var s := Strip(lines[|lines| - 1]);
      if s != "" {
        assert multiset(ips) == multiset(ips0) + multiset{s};
      } else {
        assert ips == ips0;
      }
    }
  }

  // ----- mapping_dict -----

  /** A batch response: an object all of whose values are objects. */
  predicate IsBatch(elem: Json) {
    elem.JObject? && forall k :: k in elem.fields ==> elem.fields[k].JObject?
  }

  /** The test that picks the merging branch for a list. */
  predicate AllBatches(items: seq<Json>) {
    items != [] && forall i :: 0 <= i < |items| ==> IsBatch(items[i])
  }

  /** `mapping_dict.update(elem)` for every element, left to right. */
  function MergeBatches(items: seq<Json>): map<string, Json>
    requires forall i :: 0 <= i < |items| ==> items[i].JObject?
  {
    if items == [] then map[]
    else MergeBatches(items[..|items| - 1]) + items[|items| - 1].fields
  }

  /** What one element of a record list adds: its `ip` value as the key when that is a
      string; nothing when it is not an object with an `ip` key, or when the value is a
      number, boolean or null (a key no IP string equals); and a TypeError when the value
      is a list or an object, which cannot be a dictionary key. */
  function RecordKey(rec: Json): Exit<Option<string>> {
    if rec.JObject? && "ip" in rec.fields then
      match rec.fields["ip"]
      case JString(s) => Returned(Some(s))
      case JArray(_) => Raised
      case JObject(_) => Raised
      case _ => Returned(None)
    else Returned(None)
  }

  /** `mapping_dict[rec['ip']] = rec` for every record with an `ip`, left to right. */
  function IndexRecords(items: seq<Json>): Exit<map<string, Json>>
  {
    if items == [] then Returned(map[])
    else
      var rec := items[|items| - 1];
      match IndexRecords(items[..|items| - 1])
      case Raised => Raised
      case Returned(m) =>
        match RecordKey(rec)
        case Raised => Raised
        case Returned(None) => Returned(m)
        case Returned(Some(ip)) => Returned(m[ip := rec])
  }

  /** The mapping built from the JSON: an object is used as it is; a non-empty list of
      batch responses is merged; any other list is indexed by `ip`; anything else gives
      the empty mapping. */
  function MappingOf(data: Json): Exit<map<string, Json>>
  {
    match data
    case JObject(fields) => Returned(fields)
    case JArray(items) => if AllBatches(items) then Returned(MergeBatches(items)) else IndexRecords(items)
    case _ => Returned(map[])
  }

  /** Merging batches: a key is present exactly when some batch has it. */
  lemma {:induction false} MergeDomain(items: seq<Json>, key: string)
    requires forall i :: 0 <= i < |items| ==> items[i].JObject?
    ensures key in MergeBatches(items) <==> exists i :: 0 <= i < |items| && key in items[i].fields
  {
    if items != [] {
      var init := items[..|items| - 1];
      MergeDomain(init, key);
      if key in items[|items| - 1].fields {
        assert key in items[|items| - 1].fields;
      } else {
        if key in MergeBatches(init) {
          var i :| 0 <= i < |init| && key in init[i].fields;
          assert key in items[i].fields;
        }
        forall i | 0 <= i < |init| && key in items[i].fields
          ensures key in MergeBatches(init)
        {
          assert key in init[i].fields;
        }
      }
    }
  }

  /** Merging batches: a key takes its value from the last batch that has it. */
  lemma {:induction false} MergeLastWins(items: seq<Json>, key: string, j: nat)
    requires forall i :: 0 <= i < |items| ==> items[i].JObject?
    requires j < |items| && key in items[j].fields
    requires forall i :: j < i < |items| ==> key !in items[i].fields
    ensures key in MergeBatches(items) && MergeBatches(items)[key] == items[j].fields[key]
  {
    var init := items[..|items| - 1];
    if j < |init| {
      assert key !in items[|items| - 1].fields;
      MergeLastWins(init, key, j);
    }
  }

  /** The record is an object whose `ip` is the string `ip`. */
  predicate HasIp(rec: Json, ip: string) {
    rec.JObject? && "ip" in rec.fields && rec.fields["ip"] == JString(ip)
  }

  /** Indexing records raises exactly when some object in the list has a list or object
      as its `ip`. */
  lemma {:induction false} IndexRaises(items: seq<Json>)
    ensures IndexRecords(items).Raised? <==> exists i :: 0 <= i < |items| && RecordKey(items[i]).Raised?
  {
    if items != [] {
      var init := items[..|items| - 1];
      IndexRaises(init);
      assert forall i :: 0 <= i < |init| ==> init[i] == items[i];
      if exists i :: 0 <= i < |items| && RecordKey(items[i]).Raised? {
        var i :| 0 <= i < |items| && RecordKey(items[i]).Raised?;
        if i < |init| {
          assert RecordKey(init[i]).Raised?;
        }
      }
    }
  }

  /** Indexing records: when it does not raise, an IP is present exactly when some record
      carries it as its `ip` string. Non-objects and objects without `ip` add nothing. */
  lemma {:induction false} IndexDomain(items: seq<Json>, ip: string)
    requires IndexRecords(items).Returned?
    ensures ip in IndexRecords(items).value <==> exists i :: 0 <= i < |items| && HasIp(items[i], ip)
  {
    if items != [] {
      var init := items[..|items| - 1];
      IndexDomain(init, ip);
      if HasIp(items[|items| - 1], ip) {
        assert HasIp(items[|items| - 1], ip);
      } else {
        if ip in IndexRecords(init).value {
          var i :| 0 <= i < |init| && HasIp(init[i], ip);
          assert HasIp(items[i], ip);
        }
        forall i | 0 <= i < |init| && HasIp(items[i], ip)
          ensures ip in IndexRecords(init).value
        {
          assert HasIp(init[i], ip);
        }
      }
    }
  }

  /** Indexing records: an IP maps to the last record that carries it. */
  lemma {:induction false} IndexLastWins(items: seq<Json>, ip: string, j: nat)
    requires IndexRecords(items).Returned?
    requires j < |items| && HasIp(items[j], ip)
    requires forall i :: j < i < |items| ==> !HasIp(items[i], ip)
    ensures ip in IndexRecords(items).value && IndexRecords(items).value[ip] == items[j]
  {
    var init := items[..|items| - 1];
    if j < |init| {
      assert !HasIp(items[|items| - 1], ip);
      IndexLastWins(init, ip, j);
    }
  }

  lemma MergeStep(items: seq<Json>, i: nat)
    requires i < |items| && forall k :: 0 <= k < |items| ==> items[k].JObject?
    ensures MergeBatches(items[..i + 1]) == MergeBatches(items[..i]) + items[i].fields
  {
    assert items[..i + 1][..i] == items[..i];
  }

  lemma IndexStep(items: seq<Json>, i: nat)
    requires i < |items| && IndexRecords(items[..i]).Returned?
    ensures IndexRecords(items[..i + 1]) ==
            match RecordKey(items[i])
            case Raised => Raised
            case Returned(None) => IndexRecords(items[..i])
            case Returned(Some(ip)) => Returned(IndexRecords(items[..i]).value[ip := items[i]])
  {
    assert items[..i + 1][..i] == items[..i];
  }

  /** The mapping step of `generate_ip_map`, as the source builds it: assignment for an
      object, `update` in a loop for batches, key assignment in a loop for records. */
  method NormaliseMapping(data: Json) returns (result: Exit<map<string, Json>>)
    ensures result == MappingOf(data)
  {
    var mapping: map<string, Json> := map[];
    if data.JObject? {
      mapping := data.fields;
    } else if data.JArray? {
      var items := data.items;
      if AllBatches(items) {
        for i := 0 to |items|
          invariant mapping == MergeBatches(items[..i])
        {
          MergeStep(items, i);
          mapping := mapping + items[i].fields;
        }
        assert items[..|items|] == items;
      } else {
        for i := 0 to |items|
          invariant IndexRecords(items[..i]) == Returned(mapping)
        {
          IndexStep(items, i);
          var rec := items[i];
          if rec.JObject? && "ip" in rec.fields {
            match rec.fields["ip"]
            case JString(ip) =>
              mapping := mapping[ip := rec];
            case JArray(_) =>
              IndexRaises(items);
              assert RecordKey(items[i]).Raised?;
              return Raised;
            case JObject(_) =>
              IndexRaises(items);
              assert RecordKey(items[i]).Raised?;
              return Raised;
            case _ =>
          }
        }
        assert items[..|items|] == items;
      }
    }
    return Returned(mapping);
  }

  // ----- rows -----

  /** One row of the point table; `loc` is the parsed location. */
  datatype Row<C> = Row(ip: string, count: nat, loc: C)

  /** What the row loop does for one IP: a row, no row, or an AttributeError when the
      record is truthy but not an object (it has no `get`). `parseLoc` stands for the
      float parsing of `"lat,lon"`; a location that is not a string makes `split` raise
      inside the `try`, which skips the IP. */
  function RowOf<C>(ip: string, count: nat, mapping: map<string, Json>, parseLoc: string -> Option<C>): Exit<Option<Row<C>>>
  {
    if ip !in mapping || !Truthy(mapping[ip]) then Returned(None)
    else
      match mapping[ip]
      case JObject(fields) =>
        if "loc" in fields && Truthy(fields["loc"]) && fields["loc"].JString? &&
           parseLoc(fields["loc"].s).Some? then
          Returned(Some(Row(ip, count, parseLoc(fields["loc"].s).value)))
        else Returned(None)
      case _ => Raised
  }

  /** The rows for the counted IPs `keys`, in that order. */
  function Rows<C>(keys: seq<string>, count: map<string, nat>, mapping: map<string, Json>,
                   parseLoc: string -> Option<C>): Exit<seq<Row<C>>>
    requires forall k :: 0 <= k < |keys| ==> keys[k] in count
  {
    if keys == [] then Returned([])
    else
      var ip := keys[|keys| - 1];
      match Rows(keys[..|keys| - 1], count, mapping, parseLoc)
      case Raised => Raised
      case Returned(rows) =>
        match RowOf(ip, count[ip], mapping, parseLoc)
        case Raised => Raised
        case Returned(None) => Returned(rows)
        case Returned(Some(row)) => Returned(rows + [row])
  }

  /** The IP gets a row: its record is a non-empty object whose `loc` is a non-empty
      string that parses. */
  predicate Located<C>(ip: string, mapping: map<string, Json>, parseLoc: string -> Option<C>) {
    ip in mapping && mapping[ip].JObject? && mapping[ip].fields != map[] &&
    "loc" in mapping[ip].fields && mapping[ip].fields["loc"].JString? &&
    mapping[ip].fields["loc"].s != "" && parseLoc(mapping[ip].fields["loc"].s).Some?
  }

  /** The record of `ip` is truthy but not an object, so `record.get` raises. */
  predicate RecordWithoutGetOf(ip: string, mapping: map<string, Json>) {
    ip in mapping && Truthy(mapping[ip]) && !mapping[ip].JObject?
  }

  /** The parsed location of a located IP. */
  function LocOf<C>(ip: string, mapping: map<string, Json>, parseLoc: string -> Option<C>): C
    requires Located(ip, mapping, parseLoc)
  {
    parseLoc(mapping[ip].fields["loc"].s).value
  }

  /** One IP: the loop raises exactly on a truthy non-object record, and otherwise adds a
      row exactly when the IP is located, carrying the IP, its count and its location. */
  lemma RowOfCharacterised<C>(ip: string, count: nat, mapping: map<string, Json>, parseLoc: string -> Option<C>)
    ensures RowOf(ip, count, mapping, parseLoc).Raised? <==> RecordWithoutGetOf(ip, mapping)
    ensures RowOf(ip, count, mapping, parseLoc).Returned? ==>
              (RowOf(ip, count, mapping, parseLoc).value.Some? <==> Located(ip, mapping, parseLoc))
    ensures Located(ip, mapping, parseLoc) ==>
              RowOf(ip, count, mapping, parseLoc) == Returned(Some(Row(ip, count, LocOf(ip, mapping, parseLoc))))
  {
  }

  /** The row loop raises exactly when some counted IP has a truthy record that is not an
      object. */
  lemma {:induction false} RowsRaise<C>(keys: seq<string>, count: map<string, nat>,
                                        mapping: map<string, Json>, parseLoc: string -> Option<C>)
    requires forall k :: 0 <= k < |keys| ==> keys[k] in count
    ensures Rows(keys, count, mapping, parseLoc).Raised? <==>
            exists k :: 0 <= k < |keys| && RecordWithoutGetOf(keys[k], mapping)
  {
    if keys != [] {
      var init, ip := keys[..|keys| - 1], keys[|keys| - 1];
      assert forall k :: 0 <= k < |init| ==> init[k] == keys[k];
      RowsRaise(init, count, mapping, parseLoc);
      RowOfCharacterised(ip, count[ip], mapping, parseLoc);
      if exists k :: 0 <= k < |keys| && RecordWithoutGetOf(keys[k], mapping) {
        var k :| 0 <= k < |keys| && RecordWithoutGetOf(keys[k], mapping);
        if k < |init| {
          assert RecordWithoutGetOf(init[k], mapping);
        }
      }
    }
  }

  /** Without an exception, the rows follow the counter order. */
  lemma {:induction false} RowsInCounterOrder<C>(keys: seq<string>, count: map<string, nat>,
                                                 mapping: map<string, Json>, parseLoc: string -> Option<C>)
    requires forall k :: 0 <= k < |keys| ==> keys[k] in count
    requires Rows(keys, count, mapping, parseLoc).Returned?
    ensures IsSubseq(RowIps(Rows(keys, count, mapping, parseLoc).value), keys)
  {
    if keys != [] {
      var init, ip := keys[..|keys| - 1], keys[|keys| - 1];
      RowsInCounterOrder(init, count, mapping, parseLoc);
      RowOfCharacterised(ip, count[ip], mapping, parseLoc);
      var ips, ips0 := RowIps(Rows(keys, count, mapping, parseLoc).value), RowIps(Rows(init, count, mapping, parseLoc).value);
      if Located(ip, mapping, parseLoc) {
        assert ips == ips0 + [ip];
        assert ips[..|ips| - 1] == ips0;
      } else {
        assert ips == ips0;
        SubseqExtend(ips0, init, ip);
        assert init + [ip] == keys;
      }
    }
  }

  /** Without an exception, a counted IP has a row exactly when it is located. */
  lemma {:induction false} RowsSelectLocated<C>(keys: seq<string>, count: map<string, nat>,
                                                mapping: map<string, Json>, parseLoc: string -> Option<C>)
    requires forall k :: 0 <= k < |keys| ==> keys[k] in count
    requires Rows(keys, count, mapping, parseLoc).Returned?
    ensures forall x :: x in keys ==>
              (x in RowIps(Rows(keys, count, mapping, parseLoc).value) <==> Located(x, mapping, parseLoc))
  {
    if keys != [] {
      var init, ip := keys[..|keys| - 1], keys[|keys| - 1];
      RowsSelectLocated(init, count, mapping, parseLoc);
      RowsInCounterOrder(init, count, mapping, parseLoc);
      RowOfCharacterised(ip, count[ip], mapping, parseLoc);
      var ips, ips0 := RowIps(Rows(keys, count, mapping, parseLoc).value), RowIps(Rows(init, count, mapping, parseLoc).value);
      SubseqElements(ips0, init);
      assert ips == ips0 + (if Located(ip, mapping, parseLoc) then [ip] else []);
      assert keys == init + [ip];
    }
  }

  /** Without an exception, every row is a located counted IP with its count and its
      parsed location. */
  lemma {:induction false} RowsContents<C>(keys: seq<string>, count: map<string, nat>,
                                           mapping: map<string, Json>, parseLoc: string -> Option<C>)
    requires forall k :: 0 <= k < |keys| ==> keys[k] in count
    requires Rows(keys, count, mapping, parseLoc).Returned?
    ensures forall row :: row in Rows(keys, count, mapping, parseLoc).value ==>
              row.ip in keys && Located(row.ip, mapping, parseLoc) &&
              row == Row(row.ip, count[row.ip], LocOf(row.ip, mapping, parseLoc))
  {
    if keys != [] {
      var init, ip := keys[..|keys| - 1], keys[|keys| - 1];
      assert forall k :: 0 <= k < |init| ==> init[k] == keys[k];
      RowsContents(init, count, mapping, parseLoc);
      RowOfCharacterised(ip, count[ip], mapping, parseLoc);
      assert keys == init + [ip];
    }
  }

  function RowIps<C>(rows: seq<Row<C>>): (ips: seq<string>)
    ensures |ips| == |rows|
    ensures forall r :: 0 <= r < |rows| ==> ips[r] == rows[r].ip
  {
    seq(|rows|, r requires 0 <= r < |rows| => rows[r].ip)
  }

  /** The row loop of `generate_ip_map`, over the counter's items in order. */
  method BuildRows<C>(counter: Counter, mapping: map<string, Json>, parseLoc: string -> Option<C>)
    returns (result: Exit<seq<Row<C>>>)
    requires forall k :: 0 <= k < |counter.keys| ==> counter.keys[k] in counter.count
    ensures result == Rows(counter.keys, counter.count, mapping, parseLoc)
  {
    var rows: seq<Row<C>> := [];
    for k := 0 to |counter.keys|
      invariant Rows(counter.keys[..k], counter.count, mapping, parseLoc) == Returned(rows)
    {
      assert counter.keys[..k + 1][..k] == counter.keys[..k];
      var ip := counter.keys[k];
      var count := counter.count[ip];
      var record := if ip in mapping then Some(mapping[ip]) else None;
      var loc: Option<Json> := None;
      if record.Some? && Truthy(record.value) {
        if !record.value.JObject? {
          RowsRaise(counter.keys, counter.count, mapping, parseLoc);
          assert RecordWithoutGetOf(counter.keys[k], mapping);
          return Raised;
        }
        loc := if "loc" in record.value.fields then Some(record.value.fields["loc"]) else None;
      }
      if loc.None? || !Truthy(loc.value) {
        continue;
      }
      if !loc.value.JString? {
        continue;
      }
      var parsed := parseLoc(loc.value.s);
      if parsed.None? {
        continue;
      }
      rows := rows + [Row(ip, count, parsed.value)];
    }
    assert counter.keys[..|counter.keys|] == counter.keys;
    return Returned(rows);
  }

  /** End to end: when no exception is raised, an address gets a map row exactly when some
      line of the IP file strips to it and its record in the mapping is located, and its
      row carries the number of such lines. */
  lemma MapRowsMeaning<C>(lines: seq<string>, data: Json, parseLoc: string -> Option<C>)
    requires MappingOf(data).Returned?
    requires Rows(IpCounts(lines).keys, IpCounts(lines).count, MappingOf(data).value, parseLoc).Returned?
    ensures var rows := Rows(IpCounts(lines).keys, IpCounts(lines).count, MappingOf(data).value, parseLoc).value;
            (forall x :: x in RowIps(rows) <==> x in NonBlank(lines) && Located(x, MappingOf(data).value, parseLoc)) &&
            (forall row :: row in rows ==> row.count == multiset(NonBlank(lines))[row.ip])
  {
    var c, m := IpCounts(lines), MappingOf(data).value;
    IpCountsKeys(lines);
    IpCountsCounts(lines);
    RowsInCounterOrder(c.keys, c.count, m, parseLoc);
    RowsSelectLocated(c.keys, c.count, m, parseLoc);
    RowsContents(c.keys, c.count, m, parseLoc);
    SubseqElements(RowIps(Rows(c.keys, c.count, m, parseLoc).value), c.keys);
  }

  // ----- layer selection -----

  /** The layer test of `generate_ip_map`: the name ends with `_<level>` or with
      `<level>`. */
  predicate LayerMatches(layer: string, adminLevel: int) {
    EndsWith(layer, "_" + IntToString(adminLevel)) || EndsWith(layer, IntToString(adminLevel))
  }

  /** The `_<level>` test adds nothing: a name that ends with `_<level>` ends with
      `<level>`. */
  lemma LayerTestSubsumed(layer: string, adminLevel: int)
    ensures LayerMatches(layer, adminLevel) <==> EndsWith(layer, IntToString(adminLevel))
  {
    if EndsWith(layer, "_" + IntToString(adminLevel)) {
      EndsWithLonger(layer, "_", IntToString(adminLevel));
    }
  }

  /** `next((ly for ly in layers if ...), None)`: the first matching name in listing
      order. A matching name is never empty, so `if not layer_name` is exactly the
      no-match case. */
  function SelectLayer(layers: seq<string>, adminLevel: int): (r: Option<string>)
    ensures r.None? <==> forall i :: 0 <= i < |layers| ==> !LayerMatches(layers[i], adminLevel)
    ensures r.Some? ==> r.value != "" &&
                        exists i :: 0 <= i < |layers| && layers[i] == r.value && LayerMatches(layers[i], adminLevel) &&
                                    forall h :: 0 <= h < i ==> !LayerMatches(layers[h], adminLevel)
  {
    if layers == [] then None
    else if LayerMatches(layers[0], adminLevel) then
      LayerTestSubsumed(layers[0], adminLevel);
      Some(layers[0])
    else
      var r := SelectLayer(layers[1..], adminLevel);
      assert forall i :: 1 <= i < |layers| ==> layers[i] == layers[1..][i - 1];
      if r.Some? then
        var i :| 0 <= i < |layers[1..]| && layers[1..][i] == r.value && LayerMatches(layers[1..][i], adminLevel) &&
                 forall h :: 0 <= h < i ==> !LayerMatches(layers[1..][h], adminLevel);
        assert layers[i + 1] == r.value;
        assert forall h :: 1 <= h < i + 1 ==> layers[h] == layers[1..][h - 1];
        r
      else r
  }

  // ----- generate_ip_map up to the rendering -----

  /** Why `generate_ip_map` stops with an exception before any map is drawn. */
  datatype MapError = UnhashableIp | RecordWithoutGet | NoLayer

  /** How far `generate_ip_map` gets without the geographic part: it returns early when
      no IP has a location, it raises, or it goes on to draw `rows` on layer `layer`. */
  datatype MapStage<C> = NoRows | Failed(error: MapError) | Render(rows: seq<Row<C>>, layer: string)

  /** `generate_ip_map` up to the choice of layer: `lines` is the IP file, `data` the
      loaded JSON, `layers` the layer names of the boundary package. */
  method GenerateIpMap<C>(lines: seq<string>, data: Json, parseLoc: string -> Option<C>,
                          layers: seq<string>, adminLevel: int)
    returns (stage: MapStage<C>)
    ensures stage == Failed(UnhashableIp) <==> MappingOf(data).Raised?
    ensures stage == Failed(RecordWithoutGet) <==>
              MappingOf(data).Returned? &&
              Rows(IpCounts(lines).keys, IpCounts(lines).count, MappingOf(data).value, parseLoc).Raised?
    ensures stage.NoRows? <==>
              MappingOf(data).Returned? &&
              Rows(IpCounts(lines).keys, IpCounts(lines).count, MappingOf(data).value, parseLoc) == Returned([])
    ensures stage == Failed(NoLayer) ==> SelectLayer(layers, adminLevel).None?
    ensures stage.Render? ==>
              MappingOf(data).Returned? &&
              Rows(IpCounts(lines).keys, IpCounts(lines).count, MappingOf(data).value, parseLoc) == Returned(stage.rows) &&
              stage.rows != [] && SelectLayer(layers, adminLevel) == Some(stage.layer)
  {
    var counter := IpCounts(lines);
    var mapping := NormaliseMapping(data);
    if mapping.Raised? {
      return Failed(UnhashableIp);
    }
    var rows := BuildRows(counter, mapping.value, parseLoc);
    if rows.Raised? {
      return Failed(RecordWithoutGet);
    }
    if rows.value == [] {
      return NoRows;
    }
    var layer := SelectLayer(layers, adminLevel);
    if layer.None? {
      return Failed(NoLayer);
    }
    return Render(rows.value, layer.value);
  }
}
