/** Struct tags: the printer and the parser, and exactly when one undoes the other. */
module Tags {
  import opened Optional
  import opened Sequences

  datatype Tag = Tag(name: string, value: string, options: map<string, string>, original: string)

  // ---------- strings ----------

  /** White space as strings.TrimSpace understands it. */
  predicate IsSpace(c: char) {
    '\t' <= c <= '\r' || c == ' ' || c == '\U{0085}' || c == '\U{00A0}' || c == '\U{1680}' ||
    '\U{2000}' <= c <= '\U{200A}' || c == '\U{2028}' || c == '\U{2029}' || c == '\U{202F}' ||
    c == '\U{205F}' || c == '\U{3000}'
  }

  function TrimSpace(s: string): string {
    if s == "" then ""
    else if IsSpace(s[0]) then TrimSpace(s[1..])
    else if IsSpace(s[|s| - 1]) then TrimSpace(s[..|s| - 1])
    else s
  }

  predicate Trimmed(s: string) {
    s != "" ==> !IsSpace(s[0]) && !IsSpace(s[|s| - 1])
  }

  lemma {:induction false} TrimFacts(s: string)
    ensures Trimmed(TrimSpace(s)) && (Trimmed(s) ==> TrimSpace(s) == s)
    ensures forall c :: c in TrimSpace(s) ==> c in s
  {
    if s != "" {
      if IsSpace(s[0]) {
        TrimFacts(s[1..]);
      } else if IsSpace(s[|s| - 1]) {
        TrimFacts(s[..|s| - 1]);
      }
    }
  }

  predicate AllSpace(s: string) {
    forall i :: 0 <= i < |s| ==> IsSpace(s[i])
  }

  lemma SpaceJoins(a: string, b: string)
    requires AllSpace(a) && AllSpace(b)
    ensures AllSpace(a + b)
  {
  }

  lemma {:induction false} TrimBounds(s: string) returns (i: nat, j: nat)
    ensures i <= j <= |s| && TrimSpace(s) == s[i..j]
    ensures AllSpace(s[..i]) && AllSpace(s[j..])
  {
    i, j := 0, |s|;
    if s != "" {
      var k := |s| - 1;
      if IsSpace(s[0]) {
        i, j := TrimBounds(s[1..]);
        CutFront(s, i, j);
        SpaceJoins([s[0]], s[1..][..i]);
        i, j := i + 1, j + 1;
      } else if IsSpace(s[k]) {
        i, j := TrimBounds(s[..k]);
        CutBack(s, i, j);
        SpaceJoins(s[..k][j..], [s[k]]);
      }
    }
  }

  lemma CutFront(s: string, i: nat, j: nat)
    requires s != "" && i <= j < |s|
    ensures s[1..][i..j] == s[i + 1..j + 1] && s[1..][j..] == s[j + 1..] && s[..i + 1] == [s[0]] + s[1..][..i]
  {
  }

  lemma CutBack(s: string, i: nat, j: nat)
    requires i <= j < |s|
    ensures var k := |s| - 1;
            s[..k][i..j] == s[i..j] && s[..k][..i] == s[..i] && s[j..] == s[..k][j..] + [s[k]]
  {
  }

  /** Trimming cuts off white space in front and behind, and nothing else. */
  lemma TrimCuts(s: string) returns (a: string, b: string)
    ensures s == a + TrimSpace(s) + b && AllSpace(a) && AllSpace(b)
  {
    var i, j := TrimBounds(s);
    a, b := s[..i], s[j..];
    assert s == s[..i] + s[i..j] + s[j..];
  }

  lemma {:induction false} TrimPadded(a: string, t: string, b: string)
    requires AllSpace(a) && AllSpace(b) && Trimmed(t)
    ensures TrimSpace(a + t + b) == t
    decreases |a| + |b|
  {
    var s := a + t + b;
    if a != "" {
      assert s[0] == a[0] && s[1..] == a[1..] + t + b;
      TrimPadded(a[1..], t, b);
    } else if b == "" {
      assert s == t;
      TrimFacts(t);
    } else if t == "" {
      assert s[0] == b[0] && s[1..] == a + t + b[1..];
      TrimPadded(a, t, b[1..]);
    } else {
      var k := |b| - 1;
      assert s[0] == t[0] && s[|s| - 1] == b[k] && s[..|s| - 1] == a + t + b[..k];
      TrimPadded(a, t, b[..k]);
    }
  }

  /** Padding makes no difference. */
  lemma TrimAgain(a: string, s: string, b: string)
    requires AllSpace(a) && AllSpace(b)
    ensures TrimSpace(a + s + b) == TrimSpace(s)
  {
    var x, y := TrimCuts(s);
    TrimFacts(s);
    assert a + s + b == (a + x) + TrimSpace(s) + (y + b);
    TrimPadded(a + x, TrimSpace(s), y + b);
  }

  /** strings.Split at a comma. */
  function Split(s: string): seq<string> {
    if ',' !in s then [s] else
      var i := IndexOf(s, ',');
      [s[..i]] + Split(s[i + 1..])
  }

  function Join(parts: seq<string>): string
    requires parts != []
  {
    if |parts| == 1 then parts[0] else parts[0] + "," + Join(parts[1..])
  }

  ghost predicate NoCommas(parts: seq<string>) {
    forall i :: 0 <= i < |parts| ==> ',' !in parts[i]
  }

  lemma {:induction false} SplitFacts(s: string)
    ensures Split(s) != [] && NoCommas(Split(s))
  {
    if ',' in s {
      SplitFacts(s[IndexOf(s, ',') + 1..]);
    }
  }

  lemma {:induction false} SplitJoin(parts: seq<string>)
    requires parts != [] && NoCommas(parts)
    ensures Split(Join(parts)) == parts
  {
    if |parts| > 1 {
      var s := Join(parts);
      SplitAt(parts[0], Join(parts[1..]));
      SplitJoin(parts[1..]);
      assert parts == [parts[0]] + parts[1..];
    }
  }

  lemma {:induction false} JoinSplit(s: string)
    ensures Split(s) != [] && Join(Split(s)) == s
    decreases |s|
  {
    if ',' in s {
      var first, rest := AtComma(s);
      JoinSplit(rest);
      JoinCons(first, Split(rest));
    }
  }

  lemma AtComma(s: string) returns (first: string, rest: string)
    requires ',' in s
    ensures s == first + "," + rest && Split(s) == [first] + Split(rest) && |rest| < |s|
  {
    var i := IndexOf(s, ',');
    first, rest := s[..i], s[i + 1..];
    assert s == s[..i] + [s[i]] + s[i + 1..];
  }

  lemma JoinCons(first: string, parts: seq<string>)
    requires parts != []
    ensures Join([first] + parts) == first + "," + Join(parts)
  {
    assert ([first] + parts)[1..] == parts;
  }

  lemma CutAt(a: string, c: char, b: string)
    requires c !in a
    ensures var s := a + [c] + b;
            c in s && IndexOf(s, c) == |a| && s[..|a|] == a && s[|a| + 1..] == b
  {
    var s := a + [c] + b;
    assert s[|a|] == c;
    assert forall k :: 0 <= k < |a| ==> s[k] == a[k] && a[k] in a;
    assert c !in s[..|a|];
  }

  lemma SplitAt(a: string, b: string)
    requires ',' !in a
    ensures Split(a + "," + b) == [a] + Split(b)
  {
    CutAt(a, ',', b);
  }

  // ---------- parsing ----------

  datatype Pair = Pair(key: string, value: string)

  /** A text cut at the first separator, both halves trimmed; without one, all of it and a default. */
  function Cut(text: string, separator: char, missing: string): Pair {
    if separator in text then
      var i := IndexOf(text, separator);
      Pair(TrimSpace(text[..i]), TrimSpace(text[i + 1..]))
    else Pair(text, missing)
  }

  function OptionOf(part: string): Pair {
    Cut(TrimSpace(part), '=', "true")
  }

  function Options(parts: seq<string>): map<string, string> {
    if parts == [] then map[] else
      var k := |parts| - 1;
      var o := OptionOf(parts[k]);
      Options(parts[..k])[o.key := o.value]
  }

  function Parsed(tag: string): Option<Tag> {
    if tag == "" then None else
      var parts := Split(tag);
      SplitFacts(tag);
      var main := TrimSpace(parts[0]);
      if main == "-" then Some(Tag("-", "", map[], tag)) else
        var m := Cut(main, ':', "");
        Some(Tag(m.key, m.value, Options(parts[1..]), tag))
  }

  lemma OptionsStep(parts: seq<string>, i: nat)
    requires 1 <= i < |parts|
    ensures var o := OptionOf(parts[i]);
            Options(parts[1..i + 1]) == Options(parts[1..i])[o.key := o.value]
  {
    assert parts[1..i + 1][..i - 1] == parts[1..i];
  }

  /** Parse's loop over what follows the main part. */
  method ParseOptions(parts: seq<string>) returns (options: map<string, string>)
    requires parts != []
    ensures options == Options(parts[1..])
  {
    options := map[];
    for i := 1 to |parts|
      invariant options == Options(parts[1..i])
    {
      OptionsStep(parts, i);
      var opt := TrimSpace(parts[i]);
      if '=' in opt {
        var idx := IndexOf(opt, '=');
        options := options[TrimSpace(opt[..idx]) := TrimSpace(opt[idx + 1..])];
      } else {
        options := options[opt := "true"];
      }
    }
    assert parts[1..|parts|] == parts[1..];
  }

  method Parse(tag: string) returns (t: Option<Tag>)
    ensures t == Parsed(tag)
  {
    if tag == "" {
      return None;
    }
    var parts := Split(tag);
    SplitFacts(tag);
    var main := TrimSpace(parts[0]);
    if main == "-" {
      return Some(Tag("-", "", map[], tag));
    }
    var name, value := main, "";
    if ':' in main {
      var idx := IndexOf(main, ':');
      name, value := TrimSpace(main[..idx]), TrimSpace(main[idx + 1..]);
    }
    var options := ParseOptions(parts);
    return Some(Tag(name, value, options, tag));
  }

  // ---------- what a tag is read as ----------

  /** A part without the separator is all key; otherwise what is in front of the first separator is the
      key and the rest the value. Either is trimmed. */
  ghost predicate ReadsAs(part: string, separator: char, missing: string, p: Pair) {
    if separator !in part then p == Pair(TrimSpace(part), missing)
    else forall x, y :: part == x + [separator] + y && separator !in x ==> p == Pair(TrimSpace(x), TrimSpace(y))
  }

  lemma TrimKeeps(part: string, c: char)
    requires !IsSpace(c)
    ensures c in TrimSpace(part) <==> c in part
  {
    var a, b := TrimCuts(part);
    if c in part {
      var i :| 0 <= i < |part| && part[i] == c;
      assert i >= |a| && i < |a| + |TrimSpace(part)|;
      assert TrimSpace(part)[i - |a|] == c;
    } else {
      TrimFacts(part);
    }
  }

  lemma Halves(a: string, t: string, b: string, x: string, c: char, y: string)
    requires a + t + b == x + [c] + y && |a| <= |x| < |a| + |t|
    ensures x == a + t[..|x| - |a|] && y == t[|x| - |a| + 1..] + b
  {
    assert x == (a + t + b)[..|x|] && y == (a + t + b)[|x| + 1..];
  }

  /** A character that is no white space stays between what is left of both sides. */
  lemma TrimAround(x: string, c: char, y: string) returns (x': string, y': string)
    requires !IsSpace(c)
    ensures TrimSpace(x + [c] + y) == x' + [c] + y' && TrimSpace(x') == TrimSpace(x) && TrimSpace(y') == TrimSpace(y)
    ensures |x'| <= |x| && x' == x[|x| - |x'|..]
  {
    var s := x + [c] + y;
    var a, b := TrimCuts(s);
    var t := TrimSpace(s);
    assert s[|x|] == c;
    assert |a| <= |x| < |a| + |t|;
    var i := |x| - |a|;
    x', y' := t[..i], t[i + 1..];
    assert t[i] == s[|a| + i];
    Halves(a, t, b, x, c, y);
    TrimAgain(a, x', "");
    TrimAgain("", y', b);
    assert a + x' + "" == x && "" + y' + b == y;
  }

  lemma PartReads(part: string, separator: char, missing: string)
    requires !IsSpace(separator)
    ensures ReadsAs(part, separator, missing, Cut(TrimSpace(part), separator, missing))
  {
    TrimKeeps(part, separator);
    if separator in part {
      forall x, y | part == x + [separator] + y && separator !in x
        ensures Cut(TrimSpace(part), separator, missing) == Pair(TrimSpace(x), TrimSpace(y))
      {
        var x', y' := TrimAround(x, separator, y);
        CutAt(x', separator, y');
      }
    }
  }

  /** Part i is the last one with this key. */
  ghost predicate IsLast(parts: seq<string>, key: string, i: nat) {
    i < |parts| && OptionOf(parts[i]).key == key && forall j :: i < j < |parts| ==> OptionOf(parts[j]).key != key
  }

  ghost predicate Unused(parts: seq<string>, key: string) {
    forall i :: 0 <= i < |parts| ==> OptionOf(parts[i]).key != key
  }

  /** The last part with a key decides its value. */
  lemma {:induction false} LastDecides(parts: seq<string>, key: string, i: nat)
    requires IsLast(parts, key, i)
    ensures key in Options(parts) && Options(parts)[key] == OptionOf(parts[i]).value
  {
    var n := |parts| - 1;
    if i < n {
      assert OptionOf(parts[n]).key != key;
      LastDecides(parts[..n], key, i);
    }
  }

  lemma {:induction false} NoPart(parts: seq<string>, key: string)
    requires Unused(parts, key)
    ensures key !in Options(parts)
  {
    if parts != [] {
      NoPart(parts[..|parts| - 1], key);
    }
  }

  /** What a tag is read as, part by part. Its first part is the name, with a value behind the first colon,
      or says "-", and then nothing else counts. */
  lemma ParseTheorem(parts: seq<string>)
    requires parts != [] && NoCommas(parts) && Join(parts) != ""
    ensures var tag := Join(parts);
            if TrimSpace(parts[0]) == "-" then Parsed(tag) == Some(Tag("-", "", map[], tag))
            else Parsed(tag).Some? && Parsed(tag).value.original == tag &&
                 ReadsAs(parts[0], ':', "", Pair(Parsed(tag).value.name, Parsed(tag).value.value)) &&
                 Parsed(tag).value.options == Options(parts[1..])
  {
    SplitJoin(parts);
    PartReads(parts[0], ':', "");
  }

  /** Each other part is an option, with a value behind the first equals sign or "true", and of several
      with the same key the last one counts. */
  lemma OptionsTheorem(parts: seq<string>, key: string)
    ensures Unused(parts, key) ==> key !in Options(parts)
    ensures forall i :: 0 <= i < |parts| ==> ReadsAs(parts[i], '=', "true", OptionOf(parts[i]))
    ensures forall i: nat :: IsLast(parts, key, i) ==>
              key in Options(parts) && Options(parts)[key] == OptionOf(parts[i]).value
  {
    if Unused(parts, key) {
      NoPart(parts, key);
    }
    forall i | 0 <= i < |parts| ensures ReadsAs(parts[i], '=', "true", OptionOf(parts[i])) {
      PartReads(parts[i], '=', "true");
    }
    forall i: nat | IsLast(parts, key, i)
      ensures key in Options(parts) && Options(parts)[key] == OptionOf(parts[i]).value
    {
      LastDecides(parts, key, i);
    }
  }

  // ---------- printing ----------

  function Build(name: string, value: string): string {
    if value == "" then name else name + ":" + value
  }

  function OptionText(key: string, value: string): string {
    if value == "true" then key else key + "=" + value
  }

  /** An order in which a map iteration may visit the options. */
  ghost predicate IsListing(order: seq<string>, options: map<string, string>) {
    Distinct(order) && Elems(order) == options.Keys && Lists(order, options)
  }

  predicate Lists(order: seq<string>, options: map<string, string>) {
    forall k :: k in order ==> k in options
  }

  function OptionTexts(options: map<string, string>, order: seq<string>): seq<string>
    requires Lists(order, options)
  {
    seq(|order|, i requires 0 <= i < |order| => OptionText(order[i], options[order[i]]))
  }

  /** The tag printed with its options in a given order. */
  function Printed(name: string, value: string, options: map<string, string>, order: seq<string>): string
    requires Lists(order, options)
  {
    Join([Build(name, value)] + OptionTexts(options, order))
  }

  lemma {:induction false} JoinSnoc(parts: seq<string>, last: string)
    requires parts != []
    ensures Join(parts + [last]) == Join(parts) + "," + last
  {
    var all := parts + [last];
    assert all[0] == parts[0] && all[1..] == parts[1..] + [last];
    if |parts| > 1 {
      JoinSnoc(parts[1..], last);
    } else {
      assert parts[1..] == [] && all[1..] == [last];
    }
  }

  /** The appending loop: one comma and one text after another. */
  method AppendAll(start: string, ghost parts: seq<string>, texts: seq<string>) returns (result: string)
    requires parts != [] && start == Join(parts)
    ensures result == Join(parts + texts)
  {
    result := start;
    assert parts + texts[..0] == parts;
    for i := 0 to |texts|
      invariant result == Join(parts + texts[..i])
    {
      JoinSnoc(parts + texts[..i], texts[i]);
      assert parts + texts[..i + 1] == parts + texts[..i] + [texts[i]];
      result := result + "," + texts[i];
    }
    assert texts[..|texts|] == texts;
  }

  ghost predicate ListsSet(order: seq<string>, keys: set<string>) {
    Distinct(order) && Elems(order) == keys
  }

  ghost function KeysWith(options: map<string, string>, seen: set<string>, boolean: bool): set<string> {
    set k | k in seen && k in options && (options[k] == "true" <==> boolean)
  }

  /** What the map iteration has collected from the options visited so far. */
  ghost predicate Collected(options: map<string, string>, seen: set<string>, booleans: seq<string>,
                            valueKeys: seq<string>, valueOptions: seq<string>)
  {
    && ListsSet(booleans, KeysWith(options, seen, true))
    && ListsSet(valueKeys, KeysWith(options, seen, false))
    && |valueOptions| == |valueKeys|
    && forall i :: 0 <= i < |valueKeys| ==>
         valueKeys[i] in options && valueOptions[i] == valueKeys[i] + "=" + options[valueKeys[i]]
  }

  lemma ListOne(order: seq<string>, keys: set<string>, key: string)
    requires ListsSet(order, keys) && key !in keys
    ensures ListsSet(order + [key], keys + {key})
  {
    assert forall i :: 0 <= i < |order| ==> order[i] in Elems(order);
    assert Elems(order + [key]) == Elems(order) + {key};
  }

  lemma CollectOne(options: map<string, string>, seen: set<string>, booleans: seq<string>,
                   valueKeys: seq<string>, valueOptions: seq<string>, key: string)
    requires Collected(options, seen, booleans, valueKeys, valueOptions) && key in options && key !in seen
    ensures if options[key] == "true"
            then Collected(options, seen + {key}, booleans + [key], valueKeys, valueOptions)
            else Collected(options, seen + {key}, booleans, valueKeys + [key],
                           valueOptions + [key + "=" + options[key]])
  {
    var boolean := options[key] == "true";
    assert KeysWith(options, seen + {key}, boolean) == KeysWith(options, seen, boolean) + {key};
    assert KeysWith(options, seen + {key}, !boolean) == KeysWith(options, seen, !boolean);
    ListOne(if boolean then booleans else valueKeys, KeysWith(options, seen, boolean), key);
  }

  /** Boolean options come before the others. */
  ghost predicate BooleansFirst(order: seq<string>, options: map<string, string>)
    requires Lists(order, options)
  {
    forall i, j :: 0 <= i < j < |order| && options[order[j]] == "true" ==> options[order[i]] == "true"
  }

  /** Once every option has been visited, boolean options followed by the others are a listing. */
  lemma CollectedAll(options: map<string, string>, booleans: seq<string>, valueKeys: seq<string>,
                     valueOptions: seq<string>)
    requires Collected(options, options.Keys, booleans, valueKeys, valueOptions)
    ensures var order := booleans + valueKeys;
            && IsListing(order, options) && BooleansFirst(order, options)
            && OptionTexts(options, order) == booleans + valueOptions
  {
    var order := booleans + valueKeys;
    assert forall i :: 0 <= i < |booleans| ==> booleans[i] in Elems(booleans);
    assert forall i :: 0 <= i < |valueKeys| ==> valueKeys[i] in Elems(valueKeys);
    assert Elems(order) == Elems(booleans) + Elems(valueKeys);
    assert Elems(order) == options.Keys;
    assert forall i :: 0 <= i < |order| ==> order[i] in Elems(order);
  }

  /** Splits the options, visited in any order, into boolean ones and printed valued ones. */
  method CollectOptions(options: map<string, string>)
    returns (booleans: seq<string>, valueOptions: seq<string>, ghost valueKeys: seq<string>)
    ensures Collected(options, options.Keys, booleans, valueKeys, valueOptions)
  {
    booleans, valueOptions, valueKeys := [], [], [];
    var keys := options.Keys;
    while keys != {}
      invariant keys <= options.Keys
      invariant Collected(options, options.Keys - keys, booleans, valueKeys, valueOptions)
    {
      var key :| key in keys;
      CollectOne(options, options.Keys - keys, booleans, valueKeys, valueOptions, key);
      assert options.Keys - keys + {key} == options.Keys - (keys - {key});
      keys := keys - {key};
      if options[key] == "true" {
        booleans := booleans + [key];
      } else {
        valueOptions := valueOptions + [key + "=" + options[key]];
        valueKeys := valueKeys + [key];
      }
    }
    assert options.Keys - keys == options.Keys;
  }

  /** Whatever order the map is visited in, the text is the tag printed in some order, boolean options
      first, and it parses back to the very same tag exactly when the parts are printable. */
  method BuildWithOptions(name: string, value: string, options: map<string, string>) returns (result: string)
    ensures exists order :: IsListing(order, options) && BooleansFirst(order, options) &&
                            result == Printed(name, value, options, order)
    ensures Parsed(result) == Some(Tag(name, value, options, result)) <==> Printable(name, value, options)
  {
    result := Build(name, value);
    var booleans, valueOptions, valueKeys := CollectOptions(options);
    ghost var main := [Build(name, value)];
    result := AppendAll(result, main, booleans);
    result := AppendAll(result, main + booleans, valueOptions);
    assert main + booleans + valueOptions == main + (booleans + valueOptions);
    Built(name, value, options, booleans, valueKeys, valueOptions);
  }

  lemma Built(name: string, value: string, options: map<string, string>, booleans: seq<string>,
              valueKeys: seq<string>, valueOptions: seq<string>)
    requires Collected(options, options.Keys, booleans, valueKeys, valueOptions)
    ensures var result := Join([Build(name, value)] + (booleans + valueOptions));
            && (exists order :: IsListing(order, options) && BooleansFirst(order, options) &&
                                result == Printed(name, value, options, order))
            && (Parsed(result) == Some(Tag(name, value, options, result)) <==> Printable(name, value, options))
  {
    CollectedAll(options, booleans, valueKeys, valueOptions);
    RoundTripTheorem(name, value, options, booleans + valueKeys);
  }

  // ---------- the round trip ----------

  predicate Plain(s: string) {
    Trimmed(s) && ',' !in s
  }

  /** Trimmed option keys and values without commas, and keys without an equals sign. */
  predicate PlainOptions(options: map<string, string>) {
    forall k :: k in options ==> Plain(k) && '=' !in k && Plain(options[k])
  }

  /** Trimmed parts without commas, a name without a colon, option keys without an equals sign. */
  predicate PlainParts(name: string, value: string, options: map<string, string>) {
    && Plain(name) && ':' !in name && Plain(value)
    && PlainOptions(options)
  }

  /** What a caller can check before printing: plain parts, something to print, and no options on the
      ignore tag. */
  predicate Printable(name: string, value: string, options: map<string, string>) {
    && PlainParts(name, value, options)
    && !(name == "" && value == "" && options == map[])
    && (name == "-" && value == "" ==> options == map[])
  }

  /** Two plain halves joined by a separator are cut apart again. */
  lemma CutJoined(a: string, separator: char, b: string, missing: string)
    requires Trimmed(a) && Trimmed(b) && separator !in a && !IsSpace(separator)
    ensures var s := a + [separator] + b; Trimmed(s) && Cut(s, separator, missing) == Pair(a, b)
  {
    CutAt(a, separator, b);
    TrimFacts(a);
    TrimFacts(b);
  }

  /** What a cut yields is trimmed, free of anything the text is free of, and its key holds no
      separator. */
  lemma CutFacts(text: string, separator: char, missing: string)
    requires Plain(text) && Plain(missing)
    ensures var p := Cut(text, separator, missing); Plain(p.key) && separator !in p.key && Plain(p.value)
  {
    if separator in text {
      var i := IndexOf(text, separator);
      TrimFacts(text[..i]);
      TrimFacts(text[i + 1..]);
    }
  }

  lemma OptionRoundTrip(key: string, value: string)
    requires Plain(key) && '=' !in key && Plain(value)
    ensures var text := OptionText(key, value);
            ',' !in text && Cut(TrimSpace(text), '=', "true") == Pair(key, value)
  {
    var text := OptionText(key, value);
    TrimFacts(text);
    if value != "true" {
      CutJoined(key, '=', value, "true");
      assert text == key + ['='] + value;
    }
  }

  /** The options picked one by one in an order. */
  function Chosen(options: map<string, string>, order: seq<string>): map<string, string>
    requires Lists(order, options)
  {
    if order == [] then map[] else
      var n := |order| - 1;
      assert order[n] in order && forall k :: k in order[..n] ==> k in order;
      Chosen(options, order[..n])[order[n] := options[order[n]]]
  }

  lemma {:induction false} ChosenFacts(options: map<string, string>, order: seq<string>)
    requires Lists(order, options)
    ensures Chosen(options, order).Keys == Elems(order)
    ensures forall k :: k in Chosen(options, order) ==> k in options && Chosen(options, order)[k] == options[k]
  {
    if order != [] {
      var n := |order| - 1;
      assert order == order[..n] + [order[n]];
      ChosenFacts(options, order[..n]);
      assert Elems(order) == Elems(order[..n]) + {order[n]};
    }
  }

  lemma ListsInit(order: seq<string>, options: map<string, string>)
    requires Lists(order, options) && order != []
    ensures Lists(order[..|order| - 1], options) && order[|order| - 1] in options
    ensures var n := |order| - 1;
            OptionTexts(options, order) == OptionTexts(options, order[..n]) + [OptionText(order[n], options[order[n]])]
  {
    assert order[|order| - 1] in order && forall k :: k in order[..|order| - 1] ==> k in order;
  }

  lemma {:induction false} OptionsRoundTrip(options: map<string, string>, order: seq<string>)
    requires Lists(order, options) && PlainOptions(options)
    ensures Options(OptionTexts(options, order)) == Chosen(options, order)
    ensures NoCommas(OptionTexts(options, order))
  {
    if order != [] {
      var n := |order| - 1;
      ListsInit(order, options);
      var texts, last := OptionTexts(options, order[..n]), OptionText(order[n], options[order[n]]);
      OptionsRoundTrip(options, order[..n]);
      OptionRoundTrip(order[n], options[order[n]]);
      assert (texts + [last])[..n] == texts && (texts + [last])[n] == last;
    }
  }

  lemma {:induction false} OptionsFacts(parts: seq<string>)
    requires NoCommas(parts)
    ensures PlainOptions(Options(parts))
  {
    if parts != [] {
      var k := |parts| - 1;
      OptionsFacts(parts[..k]);
      TrimFacts(parts[k]);
      CutFacts(TrimSpace(parts[k]), '=', "true");
    }
  }

  /** Everything the parser returns has plain parts. */
  lemma ParsedFacts(tag: string)
    requires Parsed(tag).Some?
    ensures var t := Parsed(tag).value; PlainParts(t.name, t.value, t.options)
  {
    var parts := Split(tag);
    SplitFacts(tag);
    TrimFacts(parts[0]);
    OptionsFacts(parts[1..]);
    CutFacts(TrimSpace(parts[0]), ':', "");
  }

  /** The main part survives the round trip. */
  lemma MainRoundTrip(name: string, value: string)
    requires Plain(name) && ':' !in name && Plain(value)
    ensures var main := Build(name, value);
            && ',' !in main && TrimSpace(main) == main && (main == "-" <==> name == "-" && value == "")
            && Cut(main, ':', "") == Pair(name, value)
  {
    var main := Build(name, value);
    TrimFacts(main);
    if value != "" {
      CutJoined(name, ':', value, "");
      assert main == name + [':'] + value;
    }
  }

  lemma AllOptionsRoundTrip(name: string, value: string, options: map<string, string>, order: seq<string>)
    requires IsListing(order, options) && PlainParts(name, value, options)
    ensures Options(OptionTexts(options, order)) == options
    ensures NoCommas(OptionTexts(options, order))
  {
    OptionsRoundTrip(options, order);
    ChosenFacts(options, order);
  }

  /** What the printed text of plain parts parses to, whatever the order. */
  lemma PrintedParses(name: string, value: string, options: map<string, string>, order: seq<string>)
    requires IsListing(order, options) && PlainParts(name, value, options)
    ensures var tag := Printed(name, value, options, order);
            && (tag == "" <==> name == "" && value == "" && options == map[])
            && (tag != "" ==> Parsed(tag) == Some(if name == "-" && value == "" then Tag("-", "", map[], tag)
                                                  else Tag(name, value, options, tag)))
  {
    var tag := Printed(name, value, options, order);
    var texts := OptionTexts(options, order);
    var parts := [Build(name, value)] + texts;
    MainRoundTrip(name, value);
    AllOptionsRoundTrip(name, value, options, order);
    SplitJoin(parts);
    assert parts[1..] == texts;
    if texts == [] {
      assert options == map[];
    } else {
      assert order[0] in Elems(order);
      assert tag == parts[0] + "," + Join(parts[1..]);
    }
  }

  /** Printing then parsing gives back the same name, value and options, for every order of the
      options, exactly when the parts are printable. */
  lemma RoundTripTheorem(name: string, value: string, options: map<string, string>, order: seq<string>)
    requires IsListing(order, options)
    ensures var tag := Printed(name, value, options, order);
            Parsed(tag) == Some(Tag(name, value, options, tag)) <==> Printable(name, value, options)
  {
    var tag := Printed(name, value, options, order);
    if Parsed(tag) == Some(Tag(name, value, options, tag)) {
      ParsedFacts(tag);
    }
    if PlainParts(name, value, options) {
      PrintedParses(name, value, options, order);
    }
  }

  /** Printing what was parsed and parsing that again loses nothing, unless there was nothing in it or
      it hangs options on a "-" name spelt with a colon. */
  lemma ReprintTheorem(tag: string, order: seq<string>)
    requires Parsed(tag).Some? && IsListing(order, Parsed(tag).value.options)
    ensures var t := Parsed(tag).value;
            var again := Printed(t.name, t.value, t.options, order);
            Parsed(again) == Some(t.(original := again)) <==>
              t.value != "" || (if t.options == map[] then t.name != "" else t.name != "-")
  {
    var t := Parsed(tag).value;
    ParsedFacts(tag);
    RoundTripTheorem(t.name, t.value, t.options, order);
  }
}
