/**
 * The Android `strings.xml` codec (`StringsXmlHelper`).
 *
 * A resource file is modelled by the list of `<string>` and `<plurals>`
 * elements it holds, in document order (the only tags the parser looks up);
 * an unreadable file is `Malformed`. Attributes that are absent read as "",
 * as `getAttribute` returns them. Plural items travel through the rest of the
 * plugin as flat entries under the key `name[quantity]`.
 */
module StringsXml {
  import opened Wrappers
  import opened Text
  import opened Ordering
  import opened LinkedMaps
  import opened FileTrees

  datatype Item = Item(quantity: string, text: string)

  datatype Element =
    | StringEl(name: string, translatable: string, text: string)
    | PluralsEl(name: string, translatable: string, items: seq<Item>)

  datatype Document = Resources(elements: seq<Element>) | Malformed(cause: string)

  /** The error raised for a file that cannot be parsed; it names the file. */
  datatype ParseError = ParseError(file: Path, cause: string)

  type Entry = (string, string)

  /** The composite key a plural item is stored under: `"$baseName[$quantity]"`. */
  function PluralKey(base: string, quantity: string): string {
    base + "[" + quantity + "]"
  }

  // ---------------------------------------------------------------- parse

  /** A `<string>` that is read: a non-blank name and not `translatable="false"`. */
  predicate KeptString(e: Element) {
    e.StringEl? && !IsBlank(e.name) && !IsFalseIgnoringCase(e.translatable)
  }

  /** A `<plurals>` that is read, by the same rule. */
  predicate KeptPlurals(e: Element) {
    e.PluralsEl? && !IsBlank(e.name) && !IsFalseIgnoringCase(e.translatable)
  }

  /** The assignments the `<string>` loop makes, in order. */
  function StringEntries(els: seq<Element>): seq<Entry> {
    if els == [] then []
    else
      var e := els[|els| - 1];
      StringEntries(els[..|els| - 1]) + (if KeptString(e) then [(e.name, e.text)] else [])
  }

  /** The assignments the `<item>` loop of one `<plurals>` makes: items with
      a blank quantity are skipped. */
  function ItemEntries(base: string, items: seq<Item>): seq<Entry> {
    if items == [] then []
    else
      var it := items[|items| - 1];
      ItemEntries(base, items[..|items| - 1])
      + (if IsBlank(it.quantity) then [] else [(PluralKey(base, it.quantity), it.text)])
  }

  /** The assignments the `<plurals>` loop makes, in order. */
  function PluralEntries(els: seq<Element>): seq<Entry> {
    if els == [] then []
    else
      var e := els[|els| - 1];
      PluralEntries(els[..|els| - 1]) + (if KeptPlurals(e) then ItemEntries(e.name, e.items) else [])
  }

  /** What `parse` returns for a well-formed file: all strings first, then
      all plural items, each assigned into a `LinkedHashMap`. */
  function Parsed(els: seq<Element>): LinkedMap<string> {
    PutPairs(Empty(), StringEntries(els) + PluralEntries(els))
  }

  /** `parse(file)`: a missing or malformed file raises an error naming the
      file; a partial map is never returned. */
  function ParseFile(fs: Tree<Document>, file: Path): (r: Result<LinkedMap<string>, ParseError>)
    ensures r.Failure? <==> file !in fs.files || fs.files[file].Malformed?
    ensures r.Failure? ==> r.error.file == file
    ensures r.Success? ==> r.value == Parsed(fs.files[file].elements)
  {
    if file !in fs.files then Failure(ParseError(file, "file not found"))
    else match fs.files[file]
      case Malformed(cause) => Failure(ParseError(file, cause))
      case Resources(els) => Success(Parsed(els))
  }

  /** The two loops of `parse` over the elements of a well-formed file. */
  method ParseElements(els: seq<Element>) returns (m: LinkedMap<string>)
    ensures m == Parsed(els)
  {
    m := PutStrings(els);
    m := PutPlurals(m, els);
    PutPairsAppend(Empty(), StringEntries(els), PluralEntries(els));
  }

  /** The `<string>` loop of `parse`. */
  method PutStrings(els: seq<Element>) returns (m: LinkedMap<string>)
    ensures m == PutPairs(Empty(), StringEntries(els))
  {
    m := Empty();
    for i := 0 to |els|
      invariant m == PutPairs(Empty(), StringEntries(els[..i]))
    {
      var e := els[i];
      ghost var done := StringEntries(els[..i]);
      StringEntriesSnoc(els, i);
      if e.StringEl? && !IsBlank(e.name) && !IsFalseIgnoringCase(e.translatable) {
        PutPairsSnoc(Empty(), done, (e.name, e.text));
        m := Put(m, e.name, e.text);
      } else {
        assert StringEntries(els[..i + 1]) == done;
      }
    }
    assert els[..|els|] == els;
  }

  /** The `<plurals>` loop of `parse`, continuing from the strings read. */
  method PutPlurals(m0: LinkedMap<string>, els: seq<Element>) returns (m: LinkedMap<string>)
    requires m0.Valid()
    ensures m == PutPairs(m0, PluralEntries(els))
  {
    m := m0;
    for i := 0 to |els|
      invariant m == PutPairs(m0, PluralEntries(els[..i]))
    {
      var e := els[i];
      ghost var done := PluralEntries(els[..i]);
      PluralEntriesSnoc(els, i);
      if e.PluralsEl? && !IsBlank(e.name) && !IsFalseIgnoringCase(e.translatable) {
        PutPairsAppend(m0, done, ItemEntries(e.name, e.items));
        m := PutItems(m, e.name, e.items);
      } else {
        assert PluralEntries(els[..i + 1]) == done;
      }
    }
    assert els[..|els|] == els;
  }

  lemma StringEntriesSnoc(els: seq<Element>, i: nat)
    requires i < |els|
    ensures StringEntries(els[..i + 1])
         == StringEntries(els[..i]) + (if KeptString(els[i]) then [(els[i].name, els[i].text)] else [])
  {
    assert els[..i + 1][..i] == els[..i];
  }

  lemma PluralEntriesSnoc(els: seq<Element>, i: nat)
    requires i < |els|
    ensures PluralEntries(els[..i + 1])
         == PluralEntries(els[..i]) + (if KeptPlurals(els[i]) then ItemEntries(els[i].name, els[i].items) else [])
  {
    assert els[..i + 1][..i] == els[..i];
  }

  /** The `<item>` loop of one kept `<plurals>` element. */
  method PutItems(m0: LinkedMap<string>, base: string, items: seq<Item>) returns (m: LinkedMap<string>)
    requires m0.Valid()
    ensures m == PutPairs(m0, ItemEntries(base, items))
  {
    m := m0;
    for j := 0 to |items|
      invariant m == PutPairs(m0, ItemEntries(base, items[..j]))
    {
      var it := items[j];
      ghost var done := ItemEntries(base, items[..j]);
      ItemEntriesSnoc(base, items, j);
      if !IsBlank(it.quantity) {
        var p := (PluralKey(base, it.quantity), it.text);
        PutPairsSnoc(m0, done, p);
        assert ItemEntries(base, items[..j + 1]) == done + [p];
        m := Put(m, p.0, p.1);
      } else {
        assert ItemEntries(base, items[..j + 1]) == done;
      }
    }
    assert items[..|items|] == items;
  }

  lemma ItemEntriesSnoc(base: string, items: seq<Item>, j: nat)
    requires j < |items|
    ensures ItemEntries(base, items[..j + 1])
         == ItemEntries(base, items[..j])
            + (if IsBlank(items[j].quantity) then [] else [(PluralKey(base, items[j].quantity), items[j].text)])
  {
    assert items[..j + 1][..j] == items[..j];
  }

  /** `parse(file)` on the file system. */
  method Parse(fs: FileSystem<Document>, file: Path) returns (r: Result<LinkedMap<string>, ParseError>)
    ensures r == ParseFile(fs.State(), file)
  {
    if file !in fs.files {
      return Failure(ParseError(file, "file not found"));
    }
    match fs.files[file]
    case Malformed(cause) =>
      r := Failure(ParseError(file, cause));
    case Resources(els) =>
      var m := ParseElements(els);
      r := Success(m);
  }

  lemma {:induction false} StringEntriesContent(els: seq<Element>, p: Entry)
    ensures p in StringEntries(els)
        <==> exists i | 0 <= i < |els| :: KeptString(els[i]) && p == (els[i].name, els[i].text)
  {
    if els != [] {
      var init := els[..|els| - 1];
      StringEntriesContent(init, p);
      assert forall i | 0 <= i < |init| :: init[i] == els[i];
    }
  }

  lemma {:induction false} ItemEntriesContent(base: string, items: seq<Item>, p: Entry)
    ensures p in ItemEntries(base, items)
        <==> exists j | 0 <= j < |items| ::
               !IsBlank(items[j].quantity) && p == (PluralKey(base, items[j].quantity), items[j].text)
  {
    if items != [] {
      var init := items[..|items| - 1];
      ItemEntriesContent(base, init, p);
      assert forall j | 0 <= j < |init| :: init[j] == items[j];
    }
  }

  /** A kept `<plurals>` element at a position, with one of its items. */
  predicate PluralEntryAt(els: seq<Element>, i: int, j: int, p: Entry) {
    && 0 <= i < |els| && KeptPlurals(els[i])
    && 0 <= j < |els[i].items| && !IsBlank(els[i].items[j].quantity)
    && p == (PluralKey(els[i].name, els[i].items[j].quantity), els[i].items[j].text)
  }

  lemma {:induction false} PluralEntriesContent(els: seq<Element>, p: Entry)
    ensures p in PluralEntries(els) <==> exists i, j :: PluralEntryAt(els, i, j, p)
  {
    if els != [] {
      var init := els[..|els| - 1];
      PluralEntriesContent(init, p);
      PluralEntryInit(els, init, p);
      PluralEntryLast(els, |init|, p);
    }
  }

  /** The entries of every element but the last are found in `els` too. */
  lemma PluralEntryInit(els: seq<Element>, init: seq<Element>, p: Entry)
    requires els != [] && init == els[..|els| - 1]
    ensures (exists i, j :: PluralEntryAt(init, i, j, p))
        <==> exists i, j :: PluralEntryAt(els, i, j, p) && i < |init|
  {
    if exists i, j :: PluralEntryAt(init, i, j, p) {
      var i, j :| PluralEntryAt(init, i, j, p);
      assert PluralEntryAt(els, i, j, p) && i < |els| - 1;
    }
    if exists i, j :: PluralEntryAt(els, i, j, p) && i < |init| {
      var i, j :| PluralEntryAt(els, i, j, p) && i < |init|;
      assert PluralEntryAt(init, i, j, p);
    }
  }

  /** What the last element adds is exactly its own plural entries. */
  lemma PluralEntryLast(els: seq<Element>, last: int, p: Entry)
    requires last == |els| - 1 >= 0
    ensures var e := els[last];
            (p in (if KeptPlurals(e) then ItemEntries(e.name, e.items) else [])
             <==> exists j :: PluralEntryAt(els, last, j, p))
  {
    var e := els[last];
    if KeptPlurals(e) {
      ItemEntriesContent(e.name, e.items, p);
      if p in ItemEntries(e.name, e.items) {
        var j :| 0 <= j < |e.items| && !IsBlank(e.items[j].quantity)
                 && p == (PluralKey(e.name, e.items[j].quantity), e.items[j].text);
        assert PluralEntryAt(els, last, j, p);
      }
    }
  }

  /** A key is parsed exactly when a kept `<string>` has that name, or a kept
      `<plurals>` has an item with a non-blank quantity under that composite
      key; every other element contributes nothing. */
  lemma ParsedKeys(els: seq<Element>, k: string)
    ensures k in Parsed(els).values
        <==> ((exists i | 0 <= i < |els| :: KeptString(els[i]) && els[i].name == k)
              || (exists i, j, v :: PluralEntryAt(els, i, j, (k, v))))
  {
    var ps := StringEntries(els) + PluralEntries(els);
    PutPairsKeys(Empty(), ps, k);
    if exists n | 0 <= n < |ps| :: ps[n].0 == k {
      var n :| 0 <= n < |ps| && ps[n].0 == k;
      EntryKeySource(els, k, n);
    }
    if exists i | 0 <= i < |els| :: KeptString(els[i]) && els[i].name == k {
      var i :| 0 <= i < |els| && KeptString(els[i]) && els[i].name == k;
      StringKeyEntry(els, k, i);
      KeyAt(ps, (k, els[i].text));
    }
    if exists i, j, v :: PluralEntryAt(els, i, j, (k, v)) {
      var i, j, v :| PluralEntryAt(els, i, j, (k, v));
      PluralKeyEntry(els, k, i, j, v);
      KeyAt(ps, (k, v));
    }
  }

  lemma KeyAt(ps: seq<Entry>, x: Entry)
    requires x in ps
    ensures exists n | 0 <= n < |ps| :: ps[n].0 == x.0
  {
    var n :| 0 <= n < |ps| && ps[n] == x;
  }

  /** Every parsed pair comes from a kept `<string>` or a kept plural item. */
  lemma EntryKeySource(els: seq<Element>, k: string, n: nat)
    requires var ps := StringEntries(els) + PluralEntries(els); n < |ps| && ps[n].0 == k
    ensures || (exists i | 0 <= i < |els| :: KeptString(els[i]) && els[i].name == k)
            || (exists i, j, v :: PluralEntryAt(els, i, j, (k, v)))
  {
    var ps := StringEntries(els) + PluralEntries(els);
    if n < |StringEntries(els)| {
      StringEntriesContent(els, ps[n]);
    } else {
      assert ps[n] in PluralEntries(els);
      PluralEntriesContent(els, ps[n]);
    }
  }

  /** A kept `<string>` yields a parsed pair under its name. */
  lemma StringKeyEntry(els: seq<Element>, k: string, i: nat)
    requires i < |els| && KeptString(els[i]) && els[i].name == k
    ensures (k, els[i].text) in StringEntries(els)
  {
    StringEntriesContent(els, (k, els[i].text));
    assert KeptString(els[i]) && (k, els[i].text) == (els[i].name, els[i].text);
  }

  /** A kept plural item yields a parsed pair under its composite key. */
  lemma PluralKeyEntry(els: seq<Element>, k: string, i: int, j: int, v: string)
    requires PluralEntryAt(els, i, j, (k, v))
    ensures (k, v) in PluralEntries(els)
  {
    PluralEntriesContent(els, (k, v));
  }

  // ---------------------------------------------------------------- write

  /** The six CLDR plural quantities, in the order `write` emits them. */
  const Quantities: seq<string> := ["zero", "one", "two", "few", "many", "other"]

  /** A plural item key taken apart: the regex's two groups. */
  datatype PluralRef = PluralRef(base: string, quantity: string)

  /** What `(.+)` accepts: at least one character, none a line terminator. */
  predicate IsPluralBase(b: string) {
    b != [] && NoLineTerminator(b)
  }

  predicate AllLower(q: string) {
    forall i | 0 <= i < |q| :: IsLowerLetter(q[i])
  }

  /** `Regex("^(.+)\\[(zero|one|two|few|many|other)\\]$").find(key)`, with the
      groups it captures. */
  function PluralMatch(k: string): (r: Option<PluralRef>)
    ensures r.Some? ==> r.value.quantity in Quantities && IsPluralBase(r.value.base)
    ensures r.Some? ==> k == PluralKey(r.value.base, r.value.quantity)
  {
    MatchAmong(k, Quantities)
  }

  function MatchAmong(k: string, qs: seq<string>): (r: Option<PluralRef>)
    ensures r.Some? ==> r.value.quantity in qs && IsPluralBase(r.value.base)
    ensures r.Some? ==> k == PluralKey(r.value.base, r.value.quantity)
  {
    if qs == [] then None
    else
      var n := |qs[0]| + 2;
      if |k| > n && k[|k| - n..] == "[" + qs[0] + "]" && NoLineTerminator(k[..|k| - n]) then
        assert k == k[..|k| - n] + k[|k| - n..];
        Some(PluralRef(k[..|k| - n], qs[0]))
      else
        MatchAmong(k, qs[1..])
  }

  lemma QuantitiesAreLower()
    ensures forall i | 0 <= i < |Quantities| :: AllLower(Quantities[i])
  { }

  /** A key ending in `[q]` cannot also end in `[q']` for another lower-case
      word `q'`. */
  lemma SuffixDiffers(b: string, q: string, q': string)
    requires AllLower(q) && AllLower(q') && q != q'
    ensures var k := PluralKey(b, q); var n := |q'| + 2;
            |k| > n ==> k[|k| - n..] != "[" + q' + "]"
  {
    var k := PluralKey(b, q);
    var n := |q'| + 2;
    var s := "[" + q' + "]";
    if |k| > n {
      var tail := k[|k| - n..];
      if |q'| == |q| {
        assert tail == "[" + q + "]";
        assert tail[1..|tail| - 1] == q;
        assert s[1..|s| - 1] == q';
      } else if |q'| < |q| {
        var t := |q| - |q'| - 1;
        assert tail[0] == k[|b| + 1 + t] == q[t];
        assert IsLowerLetter(tail[0]);
      } else {
        var d := |q'| - |q|;
        assert tail[d] == k[|b|] == '[';
        assert s[d] == q'[d - 1];
      }
    }
  }

  lemma {:induction false} MatchAmongComplete(b: string, q: string, qs: seq<string>)
    requires IsPluralBase(b) && q in qs
    requires forall i | 0 <= i < |qs| :: AllLower(qs[i])
    ensures MatchAmong(PluralKey(b, q), qs) == Some(PluralRef(b, q))
  {
    var k := PluralKey(b, q);
    var n := |qs[0]| + 2;
    if qs[0] == q {
      assert k[|k| - n..] == "[" + q + "]";
      assert k[..|k| - n] == b;
    } else {
      SuffixDiffers(b, q, qs[0]);
      MatchAmongComplete(b, q, qs[1..]);
    }
  }

  /** Every well-formed plural key is recognised, with its own base and
      quantity. */
  lemma PluralMatchComplete(b: string, q: string)
    requires IsPluralBase(b) && q in Quantities
    ensures PluralMatch(PluralKey(b, q)) == Some(PluralRef(b, q))
  {
    QuantitiesAreLower();
    MatchAmongComplete(b, q, Quantities);
  }

  /** `quantityOrder.indexOf(q)`, -1 when absent. */
  function IndexOf(qs: seq<string>, q: string): (i: int)
    ensures -1 <= i < |qs|
    ensures i >= 0 ==> qs[i] == q
    ensures i == -1 <==> q !in qs
  {
    if qs == [] then -1
    else if qs[0] == q then 0
    else
      var j := IndexOf(qs[1..], q);
      if j == -1 then -1 else j + 1
  }

  /** The key the quantity comparator sorts on first: the position in the
      preferred order, or `Int.MAX_VALUE` for an unknown quantity. */
  function QuantityRank(q: string): int {
    var i := IndexOf(Quantities, q);
    if i == -1 then 0x7fff_ffff else i
  }

  lemma QuantitiesDistinct()
    ensures Distinct(Quantities)
  { }

  lemma {:induction false} IndexOfDistinct(qs: seq<string>, j: nat)
    requires Distinct(qs) && j < |qs|
    ensures IndexOf(qs, qs[j]) == j
  {
    if j > 0 {
      assert qs[1..][j - 1] == qs[j];
      IndexOfDistinct(qs[1..], j - 1);
    }
  }

  /** Plural maps whose quantities are all among the six. */
  predicate KnownQuantities(groups: map<string, map<string, string>>) {
    forall b, q | b in groups && q in groups[b] :: q in Quantities
  }

  /** The items of one `<plurals>` element: `qmap.toSortedMap(quantityComparator)`
      for a map whose keys are known quantities. */
  function QuantityItems(g: map<string, string>): seq<Item>
    requires forall q | q in g :: q in Quantities
  {
    ItemsFor(Quantities, g)
  }

  function ItemsFor(qs: seq<string>, g: map<string, string>): seq<Item> {
    if qs == [] then []
    else
      var q := qs[|qs| - 1];
      ItemsFor(qs[..|qs| - 1], g) + (if q in g then [Item(q, g[q])] else [])
  }

  lemma {:induction false} ItemsForContent(qs: seq<string>, g: map<string, string>, q: string, v: string)
    ensures Item(q, v) in ItemsFor(qs, g) <==> q in qs && q in g && v == g[q]
  {
    if qs != [] {
      var init := qs[..|qs| - 1];
      ItemsForContent(init, g, q, v);
      assert qs == init + [qs[|qs| - 1]];
    }
  }

  /** The items of `ItemsFor(qs, g)` follow the order of `qs`. */
  lemma {:induction false} ItemsForOrder(qs: seq<string>, g: map<string, string>)
    requires Distinct(qs)
    ensures forall x | 0 <= x < |ItemsFor(qs, g)| :: 0 <= IndexOf(qs, ItemsFor(qs, g)[x].quantity)
    ensures forall x, y | 0 <= x < y < |ItemsFor(qs, g)| ::
              IndexOf(qs, ItemsFor(qs, g)[x].quantity) < IndexOf(qs, ItemsFor(qs, g)[y].quantity)
  {
    if qs != [] {
      var init := qs[..|qs| - 1];
      var last := qs[|qs| - 1];
      var prev := ItemsFor(init, g);
      var items := ItemsFor(qs, g);
      ItemsForOrder(init, g);
      IndexOfDistinct(qs, |qs| - 1);
      forall x | 0 <= x < |prev|
        ensures IndexOf(qs, prev[x].quantity) == IndexOf(init, prev[x].quantity)
      {
        var i := IndexOf(init, prev[x].quantity);
        IndexOfDistinct(init, i);
        IndexOfDistinct(qs, i);
        assert qs[i] == init[i];
      }
      assert forall x | 0 <= x < |prev| :: items[x] == prev[x];
    }
  }

  /** Within one `<plurals>`, items follow zero, one, two, few, many, other,
      each quantity at most once and never an unknown one, so the
      comparator's fallbacks (`Int.MAX_VALUE`, then `compareTo`) are never
      reached; and the items are exactly the group's entries. */
  lemma QuantityItemsOrder(g: map<string, string>)
    requires forall q | q in g :: q in Quantities
    ensures forall x | 0 <= x < |QuantityItems(g)| :: 0 <= QuantityRank(QuantityItems(g)[x].quantity) < 6
    ensures forall x, y | 0 <= x < y < |QuantityItems(g)| ::
              QuantityRank(QuantityItems(g)[x].quantity) < QuantityRank(QuantityItems(g)[y].quantity)
    ensures forall q, v :: Item(q, v) in QuantityItems(g) <==> q in g && v == g[q]
  {
    QuantitiesDistinct();
    ItemsForOrder(Quantities, g);
    forall q, v ensures Item(q, v) in QuantityItems(g) <==> q in g && v == g[q] {
      ItemsForContent(Quantities, g, q, v);
    }
  }

  /** The two maps `write` fills while walking the sorted entries:
      `normalStrings` and `pluralGroups`. */
  datatype Partition = Partition(normal: LinkedMap<string>, groups: LinkedMap<map<string, string>>)

  function Partitioned(ks: seq<string>, m: map<string, string>): (p: Partition)
    requires forall i | 0 <= i < |ks| :: ks[i] in m
    ensures p.normal.Valid() && p.groups.Valid()
    ensures KnownQuantities(p.groups.values)
  {
    if ks == [] then Partition(Empty(), Empty())
    else
      var p := Partitioned(ks[..|ks| - 1], m);
      var k := ks[|ks| - 1];
      match PluralMatch(k)
      case Some(r) =>
        var g := if r.base in p.groups.values then p.groups.values[r.base] else map[];
        Partition(p.normal, Put(p.groups, r.base, g[r.quantity := m[k]]))
      case None =>
        Partition(Put(p.normal, k, m[k]), p.groups)
  }

  /** Some key among `ks` is a plural item of base `b`. */
  predicate HasPluralOf(ks: seq<string>, b: string) {
    exists i | 0 <= i < |ks| :: PluralMatch(ks[i]).Some? && PluralMatch(ks[i]).value.base == b
  }

  /** Keys that are not plural items are kept as plain strings, with the
      entry's value. */
  lemma {:induction false} PartitionedNormal(ks: seq<string>, m: map<string, string>, k: string)
    requires forall i | 0 <= i < |ks| :: ks[i] in m
    ensures var p := Partitioned(ks, m);
            && (k in p.normal.values <==> k in ks && PluralMatch(k).None?)
            && (k in p.normal.values ==> p.normal.values[k] == m[k])
  {
    if ks != [] {
      var init := ks[..|ks| - 1];
      assert ks == init + [ks[|ks| - 1]];
      PartitionedNormal(init, m, k);
    }
  }

  /** A plural group exists for exactly the bases that some plural item key
      names. */
  lemma {:induction false} PartitionedBases(ks: seq<string>, m: map<string, string>, b: string)
    requires forall i | 0 <= i < |ks| :: ks[i] in m
    ensures b in Partitioned(ks, m).groups.values <==> HasPluralOf(ks, b)
  {
    if ks != [] {
      var init := ks[..|ks| - 1];
      var last := ks[|ks| - 1];
      PartitionedBases(init, m, b);
      var before := Partitioned(init, m).groups.values;
      var after := Partitioned(ks, m).groups.values;
      var lastIsB := PluralMatch(last).Some? && PluralMatch(last).value.base == b;
      assert b in after <==> b in before || lastIsB;
      HasPluralOfSnoc(init, last, b);
      assert ks == init + [last];
    }
  }

  lemma HasPluralOfSnoc(ks: seq<string>, k: string, b: string)
    ensures HasPluralOf(ks + [k], b)
        <==> HasPluralOf(ks, b) || (PluralMatch(k).Some? && PluralMatch(k).value.base == b)
  {
    var all := ks + [k];
    if HasPluralOf(ks, b) {
      var i :| 0 <= i < |ks| && PluralMatch(ks[i]).Some? && PluralMatch(ks[i]).value.base == b;
      assert all[i] == ks[i];
    }
    if PluralMatch(k).Some? && PluralMatch(k).value.base == b {
      assert all[|ks|] == k;
    }
    if HasPluralOf(all, b) {
      var i :| 0 <= i < |all| && PluralMatch(all[i]).Some? && PluralMatch(all[i]).value.base == b;
      if i < |ks| {
        assert all[i] == ks[i];
      }
    }
  }

  /** A group holds quantity `q` exactly when the entries have the key
      `b[q]`, and then with that key's value. */
  lemma {:induction false} PartitionedGroup(ks: seq<string>, m: map<string, string>, b: string, q: string)
    requires forall i | 0 <= i < |ks| :: ks[i] in m
    requires b in Partitioned(ks, m).groups.values
    ensures var g := Partitioned(ks, m).groups.values[b];
            && (q in g <==> PluralKey(b, q) in ks && PluralMatch(PluralKey(b, q)) == Some(PluralRef(b, q)))
            && (q in g ==> g[q] == m[PluralKey(b, q)])
  {
    var init := ks[..|ks| - 1];
    var last := ks[|ks| - 1];
    assert ks == init + [last];
    if b in Partitioned(init, m).groups.values {
      PartitionedGroup(init, m, b, q);
    } else {
      PartitionedBases(init, m, b);
      NoPluralOf(init, b, q);
    }
    GroupStep(init, last, m, b, q);
  }

  /** One more key: what the group of `b` holds after it, given what it held
      before (or that there was no group of `b` and no key of it). */
  lemma GroupStep(init: seq<string>, last: string, m: map<string, string>, b: string, q: string)
    requires (forall i | 0 <= i < |init| :: init[i] in m) && last in m
    requires b in Partitioned(init + [last], m).groups.values
    requires var before := Partitioned(init, m).groups.values;
             b in before ==>
               && (q in before[b] <==> PluralKey(b, q) in init && PluralMatch(PluralKey(b, q)) == Some(PluralRef(b, q)))
               && (q in before[b] ==> before[b][q] == m[PluralKey(b, q)])
    requires b !in Partitioned(init, m).groups.values ==>
               !(PluralKey(b, q) in init && PluralMatch(PluralKey(b, q)) == Some(PluralRef(b, q)))
    ensures var ks := init + [last];
            var g := Partitioned(ks, m).groups.values[b];
            && (q in g <==> PluralKey(b, q) in ks && PluralMatch(PluralKey(b, q)) == Some(PluralRef(b, q)))
            && (q in g ==> g[q] == m[PluralKey(b, q)])
  {
    var ks := init + [last];
    assert ks[..|ks| - 1] == init && ks[|ks| - 1] == last;
    assert forall x :: x in ks <==> x in init || x == last;
    var key := PluralKey(b, q);
    var matches := PluralMatch(key) == Some(PluralRef(b, q));
    var before := Partitioned(init, m).groups.values;
    var g := Partitioned(ks, m).groups.values[b];
    match PluralMatch(last)
    case Some(r) =>
      if r.base == b {
        PluralKeyInjective(b, q, r.quantity);
        assert key == last <==> q == r.quantity;
        assert (q in g <==> q == r.quantity || (b in before && q in before[b]));
      } else {
        assert g == before[b];
        assert key == last ==> !matches;
      }
    case None =>
      assert g == before[b];
      assert key == last ==> !matches;
  }

  lemma NoPluralOf(ks: seq<string>, b: string, q: string)
    requires !HasPluralOf(ks, b)
    ensures !(PluralKey(b, q) in ks && PluralMatch(PluralKey(b, q)) == Some(PluralRef(b, q)))
  {
    if PluralKey(b, q) in ks {
      var i :| 0 <= i < |ks| && ks[i] == PluralKey(b, q);
    }
  }

  lemma PluralKeyInjective(b: string, q: string, q': string)
    ensures PluralKey(b, q) == PluralKey(b, q') <==> q == q'
  {
    if PluralKey(b, q) == PluralKey(b, q') {
      var k := PluralKey(b, q);
      assert q == k[|b| + 1..|k| - 1];
      assert q' == PluralKey(b, q')[|b| + 1..|k| - 1];
    }
  }

  /** The elements written for one name: its `<string>`, then its `<plurals>`. */
  function EmitName(n: string, p: Partition): seq<Element>
    requires KnownQuantities(p.groups.values)
  {
    (if n in p.normal.values then [StringEl(n, "", p.normal.values[n])] else [])
    + (if n in p.groups.values then [PluralsEl(n, "", QuantityItems(p.groups.values[n]))] else [])
  }

  /** `allNames.forEach { ... resources.appendChild(...) }`. */
  function Emit(names: seq<string>, p: Partition): seq<Element>
    requires KnownQuantities(p.groups.values)
  {
    if names == [] then []
    else Emit(names[..|names| - 1], p) + EmitName(names[|names| - 1], p)
  }

  /** The `<resources>` children `write` produces for a map of entries. */
  function Written(m: LinkedMap<string>): seq<Element>
    requires m.Valid()
  {
    var ks := Sort(m.keys);
    assert forall i | 0 <= i < |ks| :: ks[i] in multiset(m.keys);
    var p := Partitioned(ks, m.values);
    Emit(SortedSet(p.normal.keys + p.groups.keys), p)
  }

  lemma {:induction false} EmitContent(names: seq<string>, p: Partition, e: Element)
    requires KnownQuantities(p.groups.values)
    ensures e in Emit(names, p) <==> e.name in names && e in EmitName(e.name, p)
  {
    if names != [] {
      var init := names[..|names| - 1];
      var last := names[|names| - 1];
      EmitContent(init, p, e);
      assert names == init + [last];
    }
  }

  /** Names ascend through the written elements; where a name has both, its
      `<string>` comes right before its `<plurals>`. */
  predicate InWriteOrder(els: seq<Element>) {
    forall i, j | 0 <= i < j < |els| ::
      && Below(els[i].name, els[j].name)
      && (els[i].name == els[j].name ==> els[i].StringEl? && els[j].PluralsEl?)
  }

  lemma {:induction false} EmitOrder(names: seq<string>, p: Partition)
    requires KnownQuantities(p.groups.values)
    requires StrictlySorted(names)
    ensures InWriteOrder(Emit(names, p))
  {
    if names != [] {
      var init := names[..|names| - 1];
      var last := names[|names| - 1];
      var prev := Emit(init, p);
      var tail := EmitName(last, p);
      var els := Emit(names, p);
      EmitOrder(init, p);
      assert els == prev + tail;
      forall i, j | 0 <= i < j < |els|
        ensures Below(els[i].name, els[j].name)
        ensures els[i].name == els[j].name ==> els[i].StringEl? && els[j].PluralsEl?
      {
        if j < |prev| {
          assert els[i] == prev[i] && els[j] == prev[j];
        } else if i < |prev| {
          EmitContent(init, p, prev[i]);
          var x :| 0 <= x < |init| && init[x] == prev[i].name;
          assert names[x] == init[x];
          assert els[j] in tail;
          assert els[j].name == last;
        } else {
          assert els[i] == tail[i - |prev|] && els[j] == tail[j - |prev|];
          BelowReflexive(last);
        }
      }
    }
  }

  /** The state `Written` works from: the sorted keys, their partition and
      the sorted set of names. */
  lemma WrittenUnfold(m: LinkedMap<string>) returns (ks: seq<string>, p: Partition, names: seq<string>)
    requires m.Valid()
    ensures forall k :: k in ks <==> k in m.values
    ensures forall i | 0 <= i < |ks| :: ks[i] in m.values
    ensures p == Partitioned(ks, m.values)
    ensures StrictlySorted(names)
    ensures forall n :: n in names <==> n in p.normal.values || n in p.groups.values
    ensures Written(m) == Emit(names, p)
  {
    ks := Sort(m.keys);
    SortedKeys(m);
    p := Partitioned(ks, m.values);
    names := SortedSet(p.normal.keys + p.groups.keys);
  }

  /** The sorted keys are exactly the entries' keys. */
  lemma SortedKeys(m: LinkedMap<string>)
    requires m.Valid()
    ensures forall k :: k in Sort(m.keys) <==> k in m.values
  {
    var ks := Sort(m.keys);
    forall k ensures k in ks <==> k in m.values {
      assert k in ks <==> k in multiset(m.keys);
    }
  }

  /** `write` sets no `translatable` attribute, so nothing it writes is
      skipped when read back. */
  lemma WrittenAttributes(m: LinkedMap<string>, e: Element)
    requires m.Valid() && e in Written(m)
    ensures e.translatable == ""
  {
    var ks, p, names := WrittenUnfold(m);
    EmitContent(names, p, e);
  }

  /** A `<string>` is written exactly for each entry whose key is not a
      plural item key (so `x[custom]` stays a string), with the entry's
      value. */
  lemma WrittenStrings(m: LinkedMap<string>, n: string, t: string, v: string)
    requires m.Valid()
    ensures StringEl(n, t, v) in Written(m)
        <==> t == "" && n in m.values && PluralMatch(n).None? && v == m.values[n]
  {
    var ks, p, names := WrittenUnfold(m);
    EmitContent(names, p, StringEl(n, t, v));
    PartitionedNormal(ks, m.values, n);
  }

  /** A `<plurals>` item is written exactly for each entry whose key matches
      the plural pattern, under its base name and quantity, with the entry's
      value. */
  lemma WrittenPlurals(m: LinkedMap<string>, b: string, q: string, v: string)
    requires m.Valid()
    ensures (exists e | e in Written(m) :: e.PluralsEl? && e.name == b && Item(q, v) in e.items)
        <==> && PluralKey(b, q) in m.values
             && PluralMatch(PluralKey(b, q)) == Some(PluralRef(b, q))
             && v == m.values[PluralKey(b, q)]
  {
    if exists e | e in Written(m) :: e.PluralsEl? && e.name == b && Item(q, v) in e.items {
      var e :| e in Written(m) && e.PluralsEl? && e.name == b && Item(q, v) in e.items;
      WrittenPluralsSound(m, e, q, v);
    }
    var key := PluralKey(b, q);
    if key in m.values && PluralMatch(key) == Some(PluralRef(b, q)) && v == m.values[key] {
      WrittenPluralsComplete(m, b, q);
    }
  }

  lemma WrittenPluralsSound(m: LinkedMap<string>, e: Element, q: string, v: string)
    requires m.Valid() && e in Written(m) && e.PluralsEl? && Item(q, v) in e.items
    ensures var key := PluralKey(e.name, q);
            key in m.values && PluralMatch(key) == Some(PluralRef(e.name, q)) && v == m.values[key]
  {
    var ks, p, names := WrittenUnfold(m);
    EmitContent(names, p, e);
    var g := p.groups.values[e.name];
    QuantityItemsOrder(g);
    PartitionedGroup(ks, m.values, e.name, q);
  }

  lemma WrittenPluralsComplete(m: LinkedMap<string>, b: string, q: string)
    requires m.Valid()
    requires PluralKey(b, q) in m.values && PluralMatch(PluralKey(b, q)) == Some(PluralRef(b, q))
    ensures exists e | e in Written(m) :: e.PluralsEl? && e.name == b && Item(q, m.values[PluralKey(b, q)]) in e.items
  {
    var ks, p, names := WrittenUnfold(m);
    var key := PluralKey(b, q);
    var i :| 0 <= i < |ks| && ks[i] == key;
    assert HasPluralOf(ks, b);
    PartitionedBases(ks, m.values, b);
    var g := p.groups.values[b];
    PartitionedGroup(ks, m.values, b, q);
    QuantityItemsOrder(g);
    var e := PluralsEl(b, "", QuantityItems(g));
    assert e in EmitName(b, p);
    EmitContent(names, p, e);
    assert Item(q, m.values[key]) in e.items;
  }

  /** Elements come out in ascending name order, a name's `<string>` before
      its `<plurals>`. */
  lemma WrittenOrder(m: LinkedMap<string>)
    requires m.Valid()
    ensures InWriteOrder(Written(m))
  {
    var ks, p, names := WrittenUnfold(m);
    EmitOrder(names, p);
  }

  /** Within every written `<plurals>`, items follow zero, one, two, few,
      many, other. */
  lemma WrittenQuantityOrder(m: LinkedMap<string>, e: Element)
    requires m.Valid() && e in Written(m) && e.PluralsEl?
    ensures forall x | 0 <= x < |e.items| :: 0 <= QuantityRank(e.items[x].quantity) < 6
    ensures forall x, y | 0 <= x < y < |e.items| ::
              QuantityRank(e.items[x].quantity) < QuantityRank(e.items[y].quantity)
  {
    var ks, p, names := WrittenUnfold(m);
    EmitContent(names, p, e);
    QuantityItemsOrder(p.groups.values[e.name]);
  }

  /** The name an entry is written under: the plural base for an item key,
      else the key itself. */
  function NameOf(k: string): string {
    match PluralMatch(k)
    case Some(r) => r.base
    case None => k
  }

  lemma QuantitiesNotBlank(q: string)
    requires q in Quantities
    ensures !IsBlank(q)
  {
    assert !IsWhitespace(q[0]);
  }

  /** Every assignment that reading the written file makes agrees with the
      entries. */
  lemma ReadBackAgrees(m: LinkedMap<string>, x: Entry)
    requires m.Valid()
    requires x in StringEntries(Written(m)) + PluralEntries(Written(m))
    ensures x.0 in m.values && x.1 == m.values[x.0]
  {
    var w := Written(m);
    if x in StringEntries(w) {
      StringEntriesContent(w, x);
      var i :| 0 <= i < |w| && KeptString(w[i]) && x == (w[i].name, w[i].text);
      WrittenAttributes(m, w[i]);
      WrittenStrings(m, x.0, "", x.1);
    } else {
      PluralEntriesContent(w, x);
      var i, j :| PluralEntryAt(w, i, j, x);
      var e := w[i];
      var it := e.items[j];
      WrittenPlurals(m, e.name, it.quantity, it.text);
    }
  }

  /** Every entry is assigned when the written file is read back. */
  lemma ReadBackCovers(m: LinkedMap<string>, k: string)
    requires m.Valid() && k in m.values && !IsBlank(NameOf(k))
    ensures exists x | x in StringEntries(Written(m)) + PluralEntries(Written(m)) :: x.0 == k
  {
    var w := Written(m);
    if PluralMatch(k).None? {
      ReadBackString(m, k);
    } else {
      ReadBackPlural(m, k);
    }
    assert (k, m.values[k]) in StringEntries(w) + PluralEntries(w);
  }

  lemma ReadBackString(m: LinkedMap<string>, k: string)
    requires m.Valid() && k in m.values && PluralMatch(k).None? && !IsBlank(k)
    ensures (k, m.values[k]) in StringEntries(Written(m))
  {
    var w := Written(m);
    WrittenStrings(m, k, "", m.values[k]);
    var e := StringEl(k, "", m.values[k]);
    assert KeptString(e) by { assert !IsFalseIgnoringCase(""); }
    var i :| 0 <= i < |w| && w[i] == e;
    StringEntriesContent(w, (k, m.values[k]));
  }

  lemma ReadBackPlural(m: LinkedMap<string>, k: string)
    requires m.Valid() && k in m.values && PluralMatch(k).Some? && !IsBlank(NameOf(k))
    ensures (k, m.values[k]) in PluralEntries(Written(m))
  {
    var w := Written(m);
    var r := PluralMatch(k).value;
    var v := m.values[k];
    WrittenPlurals(m, r.base, r.quantity, v);
    var e :| e in w && e.PluralsEl? && e.name == r.base && Item(r.quantity, v) in e.items;
    WrittenAttributes(m, e);
    QuantitiesNotBlank(r.quantity);
    var i :| 0 <= i < |w| && w[i] == e;
    var j :| 0 <= j < |e.items| && e.items[j] == Item(r.quantity, v);
    assert PluralEntryAt(w, i, j, (k, v));
    PluralEntriesContent(w, (k, v));
  }

  /** Reading back what `write` produced gives the same key-to-text map, for
      every entry whose name (or plural base) is not blank. */
  lemma WriteParseRoundTrip(m: LinkedMap<string>)
    requires m.Valid()
    requires forall k | k in m.values :: !IsBlank(NameOf(k))
    ensures Parsed(Written(m)).values == m.values
  {
    ReadBackSound(m);
    ReadBackComplete(m);
    SameMaps(Parsed(Written(m)).values, m.values);
  }

  /** Every entry is parsed back from the written file. */
  lemma ReadBackComplete(m: LinkedMap<string>)
    requires m.Valid()
    requires forall k | k in m.values :: !IsBlank(NameOf(k))
    ensures forall k | k in m.values :: k in Parsed(Written(m)).values
  {
    forall k | k in m.values ensures k in Parsed(Written(m)).values {
      ReadBackKey(m, k);
    }
  }

  /** Every key parsed back from the written file is an entry, with its text. */
  lemma ReadBackSound(m: LinkedMap<string>)
    requires m.Valid()
    ensures forall k | k in Parsed(Written(m)).values :: k in m.values && Parsed(Written(m)).values[k] == m.values[k]
  {
    var w := Written(m);
    var ps := StringEntries(w) + PluralEntries(w);
    forall i | 0 <= i < |ps|
      ensures ps[i].0 in m.values && ps[i].1 == m.values[ps[i].0]
    {
      ReadBackAgrees(m, ps[i]);
    }
    PutPairsAgree(Empty(), ps, m.values);
  }

  /** Every entry's key is parsed back from the written file. */
  lemma ReadBackKey(m: LinkedMap<string>, k: string)
    requires m.Valid() && k in m.values && !IsBlank(NameOf(k))
    ensures k in Parsed(Written(m)).values
  {
    var w := Written(m);
    var ps := StringEntries(w) + PluralEntries(w);
    if PluralMatch(k).None? {
      ReadBackString(m, k);
    } else {
      ReadBackPlural(m, k);
    }
    KeyAt(ps, (k, m.values[k]));
    PutPairsKeys(Empty(), ps, k);
  }

  /** `write` up to the DOM: the partition loop over the sorted entries,
      then the emission loop over all names. */
  method BuildDocument(entries: LinkedMap<string>) returns (doc: Document)
    requires entries.Valid()
    ensures doc == Resources(Written(entries))
  {
    var ks := Sort(entries.keys);
    SortedKeys(entries);
    var p := PartitionEntries(ks, entries.values);
    var names := SortedSet(p.normal.keys + p.groups.keys);
    var els := EmitAll(names, p);
    doc := Resources(els);
  }

  /** The first loop of `write`: each sorted key goes to the plain entries or
      to the quantity map of its plural base. */
  method PartitionEntries(ks: seq<string>, m: map<string, string>) returns (p: Partition)
    requires forall i | 0 <= i < |ks| :: ks[i] in m
    ensures p == Partitioned(ks, m)
  {
    var normal: LinkedMap<string> := Empty();
    var groups: LinkedMap<map<string, string>> := Empty();
    for i := 0 to |ks|
      invariant Partition(normal, groups) == Partitioned(ks[..i], m)
    {
      var name := ks[i];
      PartitionedSnoc(ks, i, m);
      match PluralMatch(name) {
        case Some(r) =>
          var qmap := if r.base in groups.values then groups.values[r.base] else map[];
          groups := Put(groups, r.base, qmap[r.quantity := m[name]]);
        case None =>
          normal := Put(normal, name, m[name]);
      }
    }
    assert ks[..|ks|] == ks;
    p := Partition(normal, groups);
  }

  /** The second loop of `write`: for each name, its `<string>` and then its
      `<plurals>`. */
  method EmitAll(names: seq<string>, p: Partition) returns (els: seq<Element>)
    requires KnownQuantities(p.groups.values)
    ensures els == Emit(names, p)
  {
    els := [];
    for i := 0 to |names|
      invariant els == Emit(names[..i], p)
    {
      var name := names[i];
      EmitSnoc(names, i, p);
      if name in p.normal.values {
        els := els + [StringEl(name, "", p.normal.values[name])];
      }
      if name in p.groups.values {
        els := els + [PluralsEl(name, "", QuantityItems(p.groups.values[name]))];
      }
    }
    assert names[..|names|] == names;
  }

  lemma PartitionedSnoc(ks: seq<string>, i: nat, m: map<string, string>)
    requires i < |ks| && forall j | 0 <= j < |ks| :: ks[j] in m
    ensures var p := Partitioned(ks[..i], m);
            var k := ks[i];
            Partitioned(ks[..i + 1], m)
            == match PluralMatch(k)
               case Some(r) =>
                 var g := if r.base in p.groups.values then p.groups.values[r.base] else map[];
                 Partition(p.normal, Put(p.groups, r.base, g[r.quantity := m[k]]))
               case None =>
                 Partition(Put(p.normal, k, m[k]), p.groups)
  {
    assert ks[..i + 1][..i] == ks[..i];
  }

  lemma EmitSnoc(names: seq<string>, i: nat, p: Partition)
    requires i < |names| && KnownQuantities(p.groups.values)
    ensures Emit(names[..i + 1], p) == Emit(names[..i], p) + EmitName(names[i], p)
  {
    assert names[..i + 1][..i] == names[..i];
  }

  /** `write(file, entries)`: the file is replaced by the written document. */
  method Write(fs: FileSystem<Document>, file: Path, entries: LinkedMap<string>)
    requires fs.State().Valid() && entries.Valid()
    modifies fs
    ensures fs.State() == old(fs.State()).Write(file, Resources(Written(entries)))
  {
    var doc := BuildDocument(entries);
    fs.WriteFile(file, doc);
  }
}
