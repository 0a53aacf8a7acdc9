/**
 * Persistence of the entry store (EntryStoreIO) at the level of the
 * properties it writes and reads: one property per date, the key being the
 * date's ISO-8601 text and the value the Base64 text of the UTF-8 bytes of
 * the date's entries joined with line feeds. Loading is lenient: a property
 * that does not decode is skipped, never an error.
 *
 * Where the file is, creating its directory, and the escaping of the
 * properties file format are not modelled; a file is a map from keys to
 * values, or missing, or unreadable.
 */
module EntryStoreIO {
  import opened Wrappers
  import opened Calendar
  import opened Text
  import Base64
  import Utf8

  /** The in-memory store: each date's entries in order. */
  type Store = map<LocalDate, seq<string>>

  /** Properties as key-value strings. */
  type Properties = map<string, string>

  /** What reading the entries file finds. */
  datatype PropertiesFile = Missing | Unreadable | Loaded(props: Properties)

  /** The stored texts a loaded list may hold: stripped, non-empty, one line. */
  predicate IsCleanEntry(s: string) {
    s != [] && Strip(s) == s && '\n' !in s
  }

  /** Every entry of a list is clean. */
  predicate AllClean(items: seq<string>) {
    forall i | 0 <= i < |items| :: IsCleanEntry(items[i])
  }

  /** The store without its dates whose list is empty. */
  function NonEmptyLists(store: Store): (r: Store)
    ensures forall d :: d in r <==> d in store && store[d] != []
    ensures forall d | d in r :: r[d] == store[d]
  {
    map d | d in store && store[d] != [] :: store[d]
  }

  /** Every list non-empty and every entry clean: what loading produces, and what round-trips. */
  predicate IsCleanStore(store: Store) {
    forall d | d in store :: store[d] != [] && AllClean(store[d])
  }

  // ----- encoding (save) -----

  /** The property value for a date's entries. */
  function EncodeEntries(items: seq<string>): string {
    Base64.Encode(Utf8.Encode(Join(items, '\n')))
  }

  /** No two dates have the same ISO text. */
  lemma FormatIsoInjective()
    ensures forall d1: LocalDate, d2: LocalDate :: FormatIso(d1) == FormatIso(d2) ==> d1 == d2
  {
    forall d1: LocalDate, d2: LocalDate | FormatIso(d1) == FormatIso(d2)
      ensures d1 == d2
    {
      ParseFormat(d1);
      ParseFormat(d2);
    }
  }

  /** The properties written for the dates in `keys` that have entries. */
  function EncodeDates(store: Store, keys: set<LocalDate>): (p: Properties)
    requires keys <= store.Keys
  {
    FormatIsoInjective();
    map d | d in keys && store[d] != [] :: FormatIso(d) := EncodeEntries(store[d])
  }

  /** The keys EncodeDates writes: the ISO texts of the dates in `keys` with entries. */
  lemma EncodeDatesKeys(store: Store, keys: set<LocalDate>)
    requires keys <= store.Keys
    ensures forall k :: k in EncodeDates(store, keys) <==> exists d :: d in keys && store[d] != [] && k == FormatIso(d)
  {
  }

  /** The value EncodeDates writes for a date with entries: their encoding. */
  lemma EncodeDatesValue(store: Store, keys: set<LocalDate>, d: LocalDate)
    requires keys <= store.Keys && d in keys && store[d] != []
    ensures FormatIso(d) in EncodeDates(store, keys) && EncodeDates(store, keys)[FormatIso(d)] == EncodeEntries(store[d])
  {
    FormatIsoInjective();
  }

  /** The properties save writes: one per date with a non-empty list, keyed by its ISO text. */
  function EncodeStore(store: Store): (p: Properties)
    ensures forall k :: k in p <==> exists d :: d in store && store[d] != [] && k == FormatIso(d)
    ensures forall d | d in store && store[d] != [] :: FormatIso(d) in p && p[FormatIso(d)] == EncodeEntries(store[d])
  {
    EncodeDatesKeys(store, store.Keys);
    forall d | d in store && store[d] != []
      ensures FormatIso(d) in EncodeDates(store, store.Keys)
      ensures EncodeDates(store, store.Keys)[FormatIso(d)] == EncodeEntries(store[d])
    {
      EncodeDatesValue(store, store.Keys, d);
    }
    EncodeDates(store, store.Keys)
  }

  /** save, up to the write: fills the properties one store entry at a time, skipping empty lists. */
  method Save(store: Store) returns (p: Properties)
    ensures p == EncodeStore(store)
  {
    p := map[];
    var remaining := store.Keys;
    while remaining != {}
      invariant remaining <= store.Keys
      invariant p == EncodeDates(store, store.Keys - remaining)
      decreases remaining
    {
      var date :| date in remaining;
      var items := store[date];
      ghost var done := store.Keys - remaining;
      if items != [] {
        var joined := Join(items, '\n');
        var encoded := Base64.Encode(Utf8.Encode(joined));
        EncodeDatesAdd(store, done, date);
        p := p[FormatIso(date) := encoded];
      } else {
        assert EncodeDates(store, done + {date}) == EncodeDates(store, done);
      }
      remaining := remaining - {date};
      assert store.Keys - remaining == done + {date};
    }
    assert store.Keys - remaining == store.Keys;
  }

  lemma EncodeDatesAdd(store: Store, keys: set<LocalDate>, d: LocalDate)
    requires keys <= store.Keys && d in store && d !in keys && store[d] != []
    ensures EncodeDates(store, keys + {d}) == EncodeDates(store, keys)[FormatIso(d) := EncodeEntries(store[d])]
  {
    FormatIsoInjective();
  }

  // ----- decoding (loadOrEmpty) -----

  /** The pieces of a split text, stripped, empty ones dropped, in order. */
  function CleanLines(lines: seq<string>): (items: seq<string>)
    ensures |items| <= |lines|
    ensures [] !in items
  {
    if lines == [] then []
    else
      var rest := CleanLines(lines[1..]);
      var s := Strip(lines[0]);
      if s == [] then rest else [s] + rest
  }

  /** A property value as entries: None for a blank value, invalid Base64 or blank text. */
  function DecodeEntries(encoded: string): Option<seq<string>> {
    if IsBlank(encoded) then None
    else
      match Base64.Decode(encoded)
      case None => None
      case Some(bytes) =>
        var decoded := Utf8.Decode(bytes);
        if IsBlank(decoded) then None
        else
          var items := CleanLines(Split(decoded, '\n'));
          if items == [] then None else Some(items)
  }

  /** Two keys that parse are the same key when they parse to the same date. */
  lemma ParseIsoInjective()
    ensures forall k1, k2 :: ParseIso(k1).Some? && ParseIso(k2).Some? && ParseIso(k1).value == ParseIso(k2).value ==> k1 == k2
  {
    forall k1, k2 | ParseIso(k1).Some? && ParseIso(k2).Some? && ParseIso(k1).value == ParseIso(k2).value
      ensures k1 == k2
    {
      FormatParse(k1);
      FormatParse(k2);
    }
  }

  /** Whether a property is loaded: its key parses as a date and its value as entries. */
  predicate Decodes(key: string, value: string) {
    ParseIso(key).Some? && DecodeEntries(value).Some?
  }

  /** The store the properties with keys in `keys` load as. */
  function DecodeKeys(p: Properties, keys: set<string>): Store
    requires keys <= p.Keys
  {
    ParseIsoInjective();
    map k | k in keys && Decodes(k, p[k]) :: ParseIso(k).value := DecodeEntries(p[k]).value
  }

  /** The dates DecodeKeys loads: those of the keys in `keys` that decode. */
  lemma DecodeKeysKeys(p: Properties, keys: set<string>)
    requires keys <= p.Keys
    ensures forall d :: d in DecodeKeys(p, keys) <==> exists k :: k in keys && Decodes(k, p[k]) && d == ParseIso(k).value
  {
  }

  /** The entries DecodeKeys loads for a key that decodes: its decoded value. */
  lemma DecodeKeysValue(p: Properties, keys: set<string>, k: string)
    requires keys <= p.Keys && k in keys && Decodes(k, p[k])
    ensures ParseIso(k).value in DecodeKeys(p, keys) && DecodeKeys(p, keys)[ParseIso(k).value] == DecodeEntries(p[k]).value
  {
    ParseIsoInjective();
  }

  /** The store loadOrEmpty builds from readable properties. */
  function DecodeProperties(p: Properties): Store {
    DecodeKeys(p, p.Keys)
  }

  /** Cleaning one more line at the end adds its stripped form unless that is empty. */
  lemma {:induction false} CleanLinesSnoc(lines: seq<string>, line: string)
    ensures CleanLines(lines + [line]) == CleanLines(lines) + (if Strip(line) == [] then [] else [Strip(line)])
  {
    if lines != [] {
      assert (lines + [line])[1..] == lines[1..] + [line];
      CleanLinesSnoc(lines[1..], line);
    } else {
      assert [line][1..] == [];
    }
  }

  /** The inner loop of loadOrEmpty: strip every line in order and keep the non-empty ones. */
  method CollectItems(lines: seq<string>) returns (items: seq<string>)
    ensures items == CleanLines(lines)
  {
    items := [];
    var i := 0;
    while i < |lines|
      invariant 0 <= i <= |lines|
      invariant items == CleanLines(lines[..i])
    {
      var s := Strip(lines[i]);
      assert lines[..i + 1] == lines[..i] + [lines[i]];
      CleanLinesSnoc(lines[..i], lines[i]);
      if s != [] {
        items := items + [s];
      }
      i := i + 1;
    }
    assert lines[..i] == lines;
  }

  /**
   * The body of loadOrEmpty's loop for one property: the entries it loads
   * as, or None when the key is not a date, the value is blank or not
   * Base64, the text is blank or no line is left after stripping.
   */
  method LoadProperty(key: string, encoded: string) returns (items: Option<seq<string>>)
    ensures items.Some? <==> Decodes(key, encoded)
    ensures items.Some? ==> items.value == DecodeEntries(encoded).value
  {
    items := None;
    var date := ParseIso(key);
    if date.Some? && !IsBlank(encoded) {
      var bytes := Base64.Decode(encoded);
      if bytes.Some? {
        var decoded := Utf8.Decode(bytes.value);
        if !IsBlank(decoded) {
          var lines := CollectItems(Split(decoded, '\n'));
          if lines != [] {
            items := Some(lines);
          }
        }
      }
    }
  }

  /**
   * loadOrEmpty: a missing or unreadable file gives the empty store; else
   * every property whose key parses as a date and whose value decodes to
   * entries becomes that date's list, and every other property is skipped.
   */
  method LoadOrEmpty(file: PropertiesFile) returns (result: Store)
    ensures result == (if file.Loaded? then DecodeProperties(file.props) else map[])
  {
    if !file.Loaded? {
      return map[];
    }
    var p := file.props;
    result := map[];
    var remaining := p.Keys;
    while remaining != {}
      invariant remaining <= p.Keys
      invariant result == DecodeKeys(p, p.Keys - remaining)
      decreases remaining
    {
      var key :| key in remaining;
      ghost var done := p.Keys - remaining;
      var items := LoadProperty(key, p[key]);
      if items.Some? {
        DecodeKeysAdd(p, done, key);
        result := result[ParseIso(key).value := items.value];
      } else {
        DecodeKeysSkip(p, done, key);
      }
      remaining := remaining - {key};
      assert p.Keys - remaining == done + {key};
    }
    assert p.Keys - remaining == p.Keys;
  }

  /** A property that does not decode adds nothing to the store. */
  lemma DecodeKeysSkip(p: Properties, keys: set<string>, k: string)
    requires keys <= p.Keys && k in p && k !in keys && !Decodes(k, p[k])
    ensures DecodeKeys(p, keys + {k}) == DecodeKeys(p, keys)
  {
  }

  lemma DecodeKeysAdd(p: Properties, keys: set<string>, k: string)
    requires keys <= p.Keys && k in p && k !in keys && Decodes(k, p[k])
    ensures DecodeKeys(p, keys + {k}) == DecodeKeys(p, keys)[ParseIso(k).value := DecodeEntries(p[k]).value]
  {
    ParseIsoInjective();
  }

  // ----- properties of the codec -----

  /** A stripped piece without line feeds that is not empty is a clean entry. */
  lemma StripIsClean(line: string)
    requires '\n' !in line && Strip(line) != []
    ensures IsCleanEntry(Strip(line))
  {
    StripIdempotent(line);
    if '\n' in Strip(line) {
      StripKeepsChars(line, '\n');
    }
  }

  /** CleanLines of pieces without line feeds yields clean entries. */
  lemma {:induction false} CleanLinesAreClean(lines: seq<string>)
    requires forall j | 0 <= j < |lines| :: '\n' !in lines[j]
    ensures AllClean(CleanLines(lines))
  {
    if lines != [] {
      var tail := lines[1..];
      assert forall j | 0 <= j < |tail| :: tail[j] == lines[j + 1];
      CleanLinesAreClean(tail);
      var rest := CleanLines(tail);
      var s := Strip(lines[0]);
      if s != [] {
        StripIsClean(lines[0]);
        var r := [s] + rest;
        forall i | 0 <= i < |r|
          ensures IsCleanEntry(r[i])
        {
          if i > 0 {
            assert r[i] == rest[i - 1];
          }
        }
      }
    }
  }

  /** Decoded entries are always clean, and a value that decodes gives at least one entry. */
  lemma DecodeEntriesClean(encoded: string)
    requires DecodeEntries(encoded).Some?
    ensures DecodeEntries(encoded).value != []
    ensures AllClean(DecodeEntries(encoded).value)
  {
    var bytes := Base64.Decode(encoded).value;
    var decoded := Utf8.Decode(bytes);
    CleanLinesAreClean(Split(decoded, '\n'));
  }

  /** A loaded store never holds an empty list, and all its entries are clean. */
  lemma LoadedStoreIsClean(p: Properties)
    ensures IsCleanStore(DecodeProperties(p))
  {
    ParseIsoInjective();
    var store := DecodeProperties(p);
    forall d | d in store
      ensures store[d] != [] && AllClean(store[d])
    {
      var k :| k in p && Decodes(k, p[k]) && ParseIso(k).value == d;
      DecodeEntriesClean(p[k]);
    }
  }

  /** Clean lines pass through CleanLines unchanged. */
  lemma {:induction false} CleanLinesOfClean(items: seq<string>)
    requires AllClean(items)
    ensures CleanLines(items) == items
  {
    if items != [] {
      CleanLinesOfClean(items[1..]);
      assert items == [items[0]] + items[1..];
    }
  }

  /** Joined entries are not blank when the first entry starts with a non-whitespace character. */
  lemma JoinNotBlank(items: seq<string>)
    requires items != [] && IsCleanEntry(items[0])
    ensures !IsBlank(Join(items, '\n'))
  {
    var j := Join(items, '\n');
    assert items[0] == Strip(items[0]);
    assert j[0] == items[0][0];
  }

  /** One date's entries round-trip through Join, UTF-8 and Base64. */
  lemma DecodeEncodeEntries(items: seq<string>)
    requires items != [] && AllClean(items)
    ensures DecodeEntries(EncodeEntries(items)) == Some(items)
  {
    var joined := Join(items, '\n');
    var bytes := Utf8.Encode(joined);
    Base64.DecodeEncode(bytes);
    Utf8.DecodeEncode(joined);
    var encoded := EncodeEntries(items);
    assert !IsBlank(encoded) by {
      if |bytes| == 0 {
        assert |joined| == 0;
        JoinNotBlank(items);
        assert false;
      }
      assert |encoded| > 0;
      assert encoded[0] != ' ' by {
        Base64LeadsWithDigit(bytes);
      }
    }
    JoinNotBlank(items);
    Text.SplitJoin(items, '\n');
    CleanLinesOfClean(items);
  }

  /** Base64 text of at least one byte starts with an alphabet character, which is not whitespace. */
  lemma Base64LeadsWithDigit(b: seq<Base64.byte>)
    requires b != []
    ensures var e := Base64.Encode(b); |e| > 0 && !IsWhitespace(e[0])
  {
    var e := Base64.Encode(b);
    if |b| >= 3 {
      var t := Base64.EncodeTriple(b[0], b[1], b[2]);
      assert e[0] == t[0];
      assert Base64.DecodeDigit(t[0]) >= 0;
    } else if |b| == 2 {
      var t := Base64.EncodeTriple(b[0], b[1], 0);
      assert e[0] == t[0];
      assert Base64.DecodeDigit(t[0]) >= 0;
    } else {
      var t := Base64.EncodeTriple(b[0], 0, 0);
      assert e[0] == t[0];
      assert Base64.DecodeDigit(t[0]) >= 0;
    }
  }

  /** Every date with entries is loaded back with the same entries. */
  lemma LoadSaveKeeps(store: Store, d: LocalDate)
    requires d in store && store[d] != [] && AllClean(store[d])
    ensures d in DecodeProperties(EncodeStore(store)) && DecodeProperties(EncodeStore(store))[d] == store[d]
  {
    var p := EncodeStore(store);
    var k := FormatIso(d);
    ParseFormat(d);
    DecodeEncodeEntries(store[d]);
    assert Decodes(k, p[k]);
    DecodeKeysValue(p, p.Keys, k);
  }

  /** Nothing else is loaded back. */
  lemma LoadSaveAddsNothing(store: Store, d: LocalDate)
    requires d in DecodeProperties(EncodeStore(store))
    ensures d in store && store[d] != []
  {
    var p := EncodeStore(store);
    DecodeKeysKeys(p, p.Keys);
    var k :| k in p && Decodes(k, p[k]) && d == ParseIso(k).value;
    var d' :| d' in store && store[d'] != [] && k == FormatIso(d');
    ParseFormat(d');
  }

  /** Every date with entries is loaded back with the same entries. */
  lemma LoadSaveKeepsAll(store: Store)
    requires forall d | d in store :: AllClean(store[d])
    ensures forall d | d in store && store[d] != [] ::
              d in DecodeProperties(EncodeStore(store)) && DecodeProperties(EncodeStore(store))[d] == store[d]
  {
    forall d | d in store && store[d] != []
      ensures d in DecodeProperties(EncodeStore(store)) && DecodeProperties(EncodeStore(store))[d] == store[d]
    {
      LoadSaveKeeps(store, d);
    }
  }

  /** Only dates with entries are loaded back. */
  lemma LoadSaveAddsNothingAll(store: Store)
    ensures forall d | d in DecodeProperties(EncodeStore(store)) :: d in store && store[d] != []
  {
    forall d | d in DecodeProperties(EncodeStore(store))
      ensures d in store && store[d] != []
    {
      LoadSaveAddsNothing(store, d);
    }
  }

  /**
   * Round trip of the whole store: loading what save writes gives back every
   * date with a non-empty list, unchanged, when all entries are clean.
   */
  lemma LoadSave(store: Store)
    requires forall d | d in store :: AllClean(store[d])
    ensures DecodeProperties(EncodeStore(store)) == NonEmptyLists(store)
  {
    LoadSaveKeepsAll(store);
    LoadSaveAddsNothingAll(store);
    StoresEqual(DecodeProperties(EncodeStore(store)), NonEmptyLists(store));
  }

  /** Two stores with the same dates and the same lists are equal. */
  lemma StoresEqual(a: Store, b: Store)
    requires forall d | d in b :: d in a && a[d] == b[d]
    requires forall d | d in a :: d in b
    ensures a == b
  {
    assert a.Keys == b.Keys;
  }

  /** For a clean store, loading what save writes gives back exactly the store. */
  lemma LoadSaveClean(store: Store)
    requires IsCleanStore(store)
    ensures DecodeProperties(EncodeStore(store)) == store
  {
    assert forall d | d in store :: AllClean(store[d]);
    LoadSave(store);
    NonEmptyListsOfClean(store);
  }

  /** A clean store has no empty list to drop. */
  lemma NonEmptyListsOfClean(store: Store)
    requires IsCleanStore(store)
    ensures NonEmptyLists(store) == store
  {
    StoresEqual(NonEmptyLists(store), store);
  }

  /** Saving what was loaded and loading it again gives the same store. */
  lemma LoadSaveLoad(p: Properties)
    ensures DecodeProperties(EncodeStore(DecodeProperties(p))) == DecodeProperties(p)
  {
    LoadedStoreIsClean(p);
    LoadSaveClean(DecodeProperties(p));
  }
}
