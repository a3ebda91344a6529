/** dojo.objectToQuery and dojo.queryToObject: name/value mappings as URL query strings. */
module QueryString {
  import opened Strings

  /** The value of a name: absent (null or undefined), a string, or an array of strings. */
  datatype Value = Missing | One(s: string) | Many(ss: seq<string>)

  /** A property of the mapping, in enumeration order. */
  datatype Property = Property(name: string, value: Value)

  /** The parsed form of "name=value". */
  datatype Item = Item(name: string, value: string)

  /** What the component encoder and decoder are used for. */
  ghost predicate Codec(enc: string -> string, dec: string -> string) {
    forall s :: dec(enc(s)) == s && '&' !in enc(s) && '=' !in enc(s)
  }

  predicate DistinctNames(m: seq<Property>) {
    forall i, j :: 0 <= i < j < |m| ==> m[i].name != m[j].name
  }

  // ------------------------------------------- printing

  function ListPairs(enc: string -> string, assign: string, ss: seq<string>): seq<string> {
    if ss == [] then [] else [assign + enc(ss[0])] + ListPairs(enc, assign, ss[1..])
  }

  function Pairs(enc: string -> string, m: seq<Property>): seq<string> {
    if m == [] then []
    else
      var assign := enc(m[0].name) + "=";
      var first :=
        match m[0].value
        case Missing => []
        case One(s) => [assign + enc(s)]
        case Many(ss) => ListPairs(enc, assign, ss);
      first + Pairs(enc, m[1..])
  }

  function ObjectToQuery(enc: string -> string, m: seq<Property>): string {
    Join(Pairs(enc, m), "&")
  }

  // ------------------------------------------- parsing

  /** parts = item.split("="); the first part is the name, the rest, rejoined, the value. */
  function ParseItem(dec: string -> string, item: string): Item {
    var parts := Split(item, '=');
    Item(dec(parts[0]), dec(Join(parts[1..], "=")))
  }

  function AddItem(ret: map<string, Value>, item: Item): map<string, Value> {
    if item.name !in ret then ret[item.name := One(item.value)]
    else
      match ret[item.name]
      case One(s) => ret[item.name := Many([s, item.value])]
      case Many(ss) => ret[item.name := Many(ss + [item.value])]
      case Missing => ret[item.name := One(item.value)]
  }

  function AddItems(dec: string -> string, ret: map<string, Value>, items: seq<string>): map<string, Value>
    decreases |items|
  {
    if items == [] then ret
    else if items[0] == "" then AddItems(dec, ret, items[1..])
    else AddItems(dec, AddItem(ret, ParseItem(dec, items[0])), items[1..])
  }

  function QueryToObject(dec: string -> string, text: string): map<string, Value> {
    AddItems(dec, map[], Split(text, '&'))
  }

  /** An encoded pair parses back, whatever the value contains. */
  lemma PairParses(enc: string -> string, dec: string -> string, name: string, s: string)
    requires Codec(enc, dec)
    ensures var pair := enc(name) + "=" + enc(s);
            pair != "" && '&' !in pair && ParseItem(dec, pair) == Item(name, s)
  {
    SplitFirst(enc(name), enc(s), '=');
    FindNone(enc(s), '=');
    assert ([enc(name)] + [enc(s)])[1..] == [enc(s)];
  }

  // ------------------------------------------- what comes back

  /** A one-element array comes back as its string; an empty one not at all. */
  function Returned(v: Value): Value {
    match v
    case Many(ss) => if ss == [] then Missing else if |ss| == 1 then One(ss[0]) else v
    case _ => v
  }

  function AsMap(ret: map<string, Value>, m: seq<Property>): map<string, Value>
    decreases |m|
  {
    if m == [] then ret
    else AsMap(if m[0].value == Missing then ret else ret[m[0].name := m[0].value], m[1..])
  }

  function ReturnedAll(m: seq<Property>): seq<Property> {
    if m == [] then [] else [Property(m[0].name, Returned(m[0].value))] + ReturnedAll(m[1..])
  }

  lemma {:induction false} AddItemsConcat(dec: string -> string, ret: map<string, Value>, a: seq<string>, b: seq<string>)
    ensures AddItems(dec, ret, a + b) == AddItems(dec, AddItems(dec, ret, a), b)
    decreases |a|
  {
    if a == [] {
      assert a + b == b;
    } else {
      assert (a + b)[1..] == a[1..] + b;
      AddItemsConcat(dec, if a[0] == "" then ret else AddItem(ret, ParseItem(dec, a[0])), a[1..], b);
    }
  }

  lemma AddOneMore(ret: map<string, Value>, name: string, have: seq<string>, s: string)
    requires have != [] && name in ret && ret[name] == Returned(Many(have))
    ensures AddItem(ret, Item(name, s)) == ret[name := Many(have + [s])]
  {
    if |have| == 1 {
      assert have + [s] == [have[0], s];
    }
  }

  /** Further values of a name that is already there are appended. */
  lemma {:induction false} AddMore(enc: string -> string, dec: string -> string, ret: map<string, Value>, name: string,
                                   have: seq<string>, ss: seq<string>)
    requires Codec(enc, dec) && have != []
    requires name in ret && ret[name] == Returned(Many(have))
    ensures AddItems(dec, ret, ListPairs(enc, enc(name) + "=", ss)) == ret[name := Returned(Many(have + ss))]
    decreases |ss|
  {
    if ss == [] {
      assert have + ss == have && ret[name := ret[name]] == ret;
    } else {
      hide ParseItem, AddItem;
      PairParses(enc, dec, name, ss[0]);
      var pairs := ListPairs(enc, enc(name) + "=", ss);
      assert pairs[1..] == ListPairs(enc, enc(name) + "=", ss[1..]);
      AddOneMore(ret, name, have, ss[0]);
      var ret' := ret[name := Many(have + [ss[0]])];
      AddMore(enc, dec, ret', name, have + [ss[0]], ss[1..]);
      assert have + [ss[0]] + ss[1..] == have + ss;
      assert ret'[name := Returned(Many(have + ss))] == ret[name := Returned(Many(have + ss))];
    }
  }

  lemma AddList(enc: string -> string, dec: string -> string, ret: map<string, Value>, name: string, ss: seq<string>)
    requires Codec(enc, dec) && name !in ret
    ensures AddItems(dec, ret, ListPairs(enc, enc(name) + "=", ss)) ==
            if ss == [] then ret else ret[name := Returned(Many(ss))]
  {
    if ss != [] {
      PairParses(enc, dec, name, ss[0]);
      var pairs := ListPairs(enc, enc(name) + "=", ss);
      assert pairs[1..] == ListPairs(enc, enc(name) + "=", ss[1..]);
      AddMore(enc, dec, ret[name := One(ss[0])], name, [ss[0]], ss[1..]);
      assert [ss[0]] + ss[1..] == ss;
    }
  }

  lemma {:induction false} AddAll(enc: string -> string, dec: string -> string, ret: map<string, Value>, m: seq<Property>)
    requires Codec(enc, dec) && DistinctNames(m)
    requires forall i :: 0 <= i < |m| ==> m[i].name !in ret
    ensures AddItems(dec, ret, Pairs(enc, m)) == AsMap(ret, ReturnedAll(m))
    decreases |m|
  {
    if m != [] {
      var p := m[0];
      var assign := enc(p.name) + "=";
      var first := match p.value case Missing => [] case One(s) => [assign + enc(s)] case Many(ss) => ListPairs(enc, assign, ss);
      AddItemsConcat(dec, ret, first, Pairs(enc, m[1..]));
      var v := Returned(p.value);
      var ret' := if v == Missing then ret else ret[p.name := v];
      match p.value {
        case Missing =>
        case One(s) => AddList(enc, dec, ret, p.name, [s]);
        case Many(ss) => AddList(enc, dec, ret, p.name, ss);
      }
      AddAll(enc, dec, ret', m[1..]);
    }
  }

  lemma {:induction false} PairsClean(enc: string -> string, dec: string -> string, m: seq<Property>)
    requires Codec(enc, dec)
    ensures forall i :: 0 <= i < |Pairs(enc, m)| ==> '&' !in Pairs(enc, m)[i]
  {
    if m != [] {
      PairsClean(enc, dec, m[1..]);
      match m[0].value {
        case Missing =>
        case One(s) => PairParses(enc, dec, m[0].name, s);
        case Many(ss) => ListPairsClean(enc, dec, m[0].name, ss);
      }
    }
  }

  lemma {:induction false} ListPairsClean(enc: string -> string, dec: string -> string, name: string, ss: seq<string>)
    requires Codec(enc, dec)
    ensures forall i :: 0 <= i < |ListPairs(enc, enc(name) + "=", ss)| ==> '&' !in ListPairs(enc, enc(name) + "=", ss)[i]
  {
    if ss != [] {
      PairParses(enc, dec, name, ss[0]);
      ListPairsClean(enc, dec, name, ss[1..]);
    }
  }

  /** For every mapping: the query string parses into the mapping with its short arrays
      shortened further and its missing values left out. */
  lemma QueryReturns(enc: string -> string, dec: string -> string, m: seq<Property>)
    requires Codec(enc, dec) && DistinctNames(m)
    ensures QueryToObject(dec, ObjectToQuery(enc, m)) == AsMap(map[], ReturnedAll(m))
  {
    AddAll(enc, dec, map[], m);
    var pairs := Pairs(enc, m);
    if pairs == [] {
      FindNone("", '&');
      assert Split("", '&') == [""];
    } else {
      PairsClean(enc, dec, m);
      SplitJoin(pairs, '&');
    }
  }

  lemma {:induction false} AsMapAt(ret: map<string, Value>, m: seq<Property>, i: nat)
    requires DistinctNames(m) && i < |m|
    requires forall j :: 0 <= j < |m| ==> m[j].name !in ret
    ensures m[i].name in AsMap(ret, m) <==> m[i].value != Missing
    ensures m[i].value != Missing ==> AsMap(ret, m)[m[i].name] == m[i].value
    decreases |m|
  {
    var ret' := if m[0].value == Missing then ret else ret[m[0].name := m[0].value];
    if i == 0 {
      AsMapKeeps(ret', m[1..], m[0].name);
    } else {
      AsMapAt(ret', m[1..], i - 1);
    }
  }

  lemma {:induction false} AsMapKeeps(ret: map<string, Value>, m: seq<Property>, name: string)
    requires forall j :: 0 <= j < |m| ==> m[j].name != name
    ensures name in AsMap(ret, m) <==> name in ret
    ensures name in ret ==> AsMap(ret, m)[name] == ret[name]
    decreases |m|
  {
    if m != [] {
      AsMapKeeps(if m[0].value == Missing then ret else ret[m[0].name := m[0].value], m[1..], name);
    }
  }

  lemma {:induction false} ReturnedAllAt(m: seq<Property>)
    ensures |ReturnedAll(m)| == |m|
    ensures forall i :: 0 <= i < |m| ==> ReturnedAll(m)[i] == Property(m[i].name, Returned(m[i].value))
  {
    if m != [] {
      ReturnedAllAt(m[1..]);
    }
  }

  predicate NoShortArray(m: seq<Property>) {
    forall i :: 0 <= i < |m| && m[i].value.Many? ==> |m[i].value.ss| >= 2
  }

  lemma ShortArrayShows(m: seq<Property>, i: nat)
    requires DistinctNames(m) && i < |m| && m[i].value.Many? && |m[i].value.ss| < 2
    ensures AsMap(map[], ReturnedAll(m)) != AsMap(map[], m)
  {
    ReturnedAllAt(m);
    AsMapAt(map[], m, i);
    AsMapAt(map[], ReturnedAll(m), i);
  }

  lemma NoShortArrayReturns(m: seq<Property>)
    requires NoShortArray(m)
    ensures ReturnedAll(m) == m
  {
    ReturnedAllAt(m);
  }

  /** The round trip holds exactly for mappings without arrays of fewer than two strings. */
  lemma QueryRoundTrip(enc: string -> string, dec: string -> string, m: seq<Property>)
    requires Codec(enc, dec) && DistinctNames(m)
    ensures QueryToObject(dec, ObjectToQuery(enc, m)) == AsMap(map[], m) <==> NoShortArray(m)
  {
    hide QueryToObject, ObjectToQuery, AsMap, ReturnedAll, Codec;
    QueryReturns(enc, dec, m);
    if NoShortArray(m) {
      NoShortArrayReturns(m);
    } else {
      var i :| 0 <= i < |m| && m[i].value.Many? && |m[i].value.ss| < 2;
      ShortArrayShows(m, i);
    }
  }

  // ------------------------------------------- queries written by hand

  /** The name ends at the first "="; further ones belong to the value. */
  lemma ItemAtFirstEquals(dec: string -> string, name: string, rest: string)
    requires '=' !in name
    ensures ParseItem(dec, name + "=" + rest) == Item(dec(name), dec(rest))
    ensures ParseItem(dec, name) == Item(dec(name), dec(""))
  {
    SplitFirst(name, rest, '=');
    JoinSplit(rest, '=');
    assert ([name] + Split(rest, '='))[1..] == Split(rest, '=');
    FindNone(name, '=');
  }

  lemma SplitAround(text: string, c: char)
    ensures Split([c] + text, c) == [""] + Split(text, c)
    ensures Split(text + [c], c) == Split(text, c) + [""]
  {
    assert "" + [c] + text == [c] + text;
    SplitFirst("", text, c);
    SplitBehind(text, c);
  }

  lemma FoundAt(text: string, c: char)
    ensures var i := Find(text, c);
            if i == |text| then c !in text else c !in text[..i] && text == text[..i] + [c] + text[i + 1..]
  {
    hide Find;
  }

  lemma SplitUnfolds(text: string, c: char)
    ensures var i := Find(text, c);
            Split(text, c) == if i == |text| then [text] else [text[..i]] + Split(text[i + 1..], c)
  {
    hide Find;
  }

  lemma {:induction false} SplitBehind(text: string, c: char)
    ensures Split(text + [c], c) == Split(text, c) + [""]
    decreases |text|
  {
    hide Split, Find;
    FoundAt(text, c);
    SplitUnfolds(text, c);
    if Find(text, c) == |text| {
      assert text + [c] == text + [c] + "";
      SplitFirst(text, "", c);
      NoParts(c);
    } else {
      var head, tail := text[..Find(text, c)], text[Find(text, c) + 1..];
      SplitBehind(tail, c);
      assert text + [c] == head + [c] + (tail + [c]);
      SplitFirst(head, tail + [c], c);
      assert [head] + (Split(tail, c) + [""]) == [head] + Split(tail, c) + [""];
    }
  }

  lemma NoParts(c: char)
    ensures Split("", c) == [""]
  {
  }

  /** Empty items, such as those of a leading or trailing "&", are skipped. */
  lemma EmptyItemsSkipped(dec: string -> string, text: string)
    ensures QueryToObject(dec, "&" + text) == QueryToObject(dec, text)
    ensures QueryToObject(dec, text + "&") == QueryToObject(dec, text)
  {
    hide Split;
    SplitAround(text, '&');
    assert ['&'] + text == "&" + text && text + ['&'] == text + "&";
    assert ([""] + Split(text, '&'))[1..] == Split(text, '&');
    AddItemsConcat(dec, map[], Split(text, '&'), [""]);
  }

  /** A property after a string and an array prints its pairs last, in order, joined by "&". */
  lemma PrintedExample(enc: string -> string, a: string, b: string, x: string, y: string, z: string)
    ensures ObjectToQuery(enc, [Property(a, One(x)), Property(b, Many([y, z]))]) ==
            (enc(a) + "=" + enc(x)) + "&" + ((enc(b) + "=" + enc(y)) + "&" + (enc(b) + "=" + enc(z)))
  {
    var m := [Property(a, One(x)), Property(b, Many([y, z]))];
    var p, q, r := enc(a) + "=" + enc(x), enc(b) + "=" + enc(y), enc(b) + "=" + enc(z);
    assert m[1..] == [m[1]] && [m[1]][1..] == [] && [y, z][1..] == [z] && [z][1..] == [];
    assert ListPairs(enc, enc(b) + "=", [z]) == [r];
    assert ListPairs(enc, enc(b) + "=", [y, z]) == [q] + [r] == [q, r];
    assert Pairs(enc, [m[1]]) == [q, r] + Pairs(enc, []) == [q, r];
    assert Pairs(enc, m) == [p] + [q, r] == [p, q, r];
    assert [p, q, r][1..] == [q, r] && [q, r][1..] == [r];
    assert Join([r], "&") == r && Join([q, r], "&") == q + "&" + r;
    assert p + "&" + (q + "&" + r) == Join([p, q, r], "&");
  }
}
