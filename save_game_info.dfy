/** The extractor inside `Application.open_file_dialog`: two pattern tables
    built from the configured field names, a search of the raw `gamestate` text
    per field, and the derived end year and years left.

    The gamestate text, the two name lists and the starting year are inputs; the
    save archive, the configuration file and the window are not modelled. */
module SaveGameInfo {
  import opened Options
  import opened Strings
  import opened OrderedDicts
  import opened LineSearch
  import opened Cleanup
  import opened IntParse

  /** What a result dictionary holds for a key: a cleaned value, the
      not-found placeholder, a computed year, or the could-not-calculate
      placeholder. */
  datatype Value = Found(text: string) | NotFound | Number(n: int) | CalcError

  const VictoryYearKey: string := "victory_year"
  const DateKey: string := "date"
  const EndYearLabel: string := "End Year (Victory)"
  const YearsLeftLabel: string := "Years Left"

  /** The start of the placeholder texts the source stores for a field that was
      not found and for a year it could not calculate. */
  const NotFoundText: string := "NOT FOUND, check syntax. Error: "
  const CalcErrorText: string := "Could not calculate, error: "

  /** A compiled pattern: `\n{name}.*\n` (flat) or `\n\t{name}.*\n` (nested). */
  datatype Pattern = Pattern(shape: Shape, name: string) {
    /** The literal part of the pattern, before `.*\n`. */
    function Head(): string {
      Prefix(shape) + name
    }
  }

  // ---------------------------------------------------------------------------
  // Field extraction

  /** One iteration of `dictionary_searcher_regex`: search the text with
      `pattern` and clean the matched line, deleting `key` from it. */
  function Lookup(gamestate: string, pattern: Pattern, key: string): (r: Value)
    ensures r.Found? || r.NotFound?
    ensures r.Found? ==> |r.text| < |gamestate|
  {
    match Search(gamestate, pattern.Head())
    case None => NotFound
    case Some(m) => Found(Clean(gamestate[m.start..m.end], key))
  }

  /** A field is reported not found exactly when no line of the text matches its
      pattern; otherwise its value is a cleaned line, which holds no newline,
      tab, `=` or `"`. */
  lemma LookupOutcome(gamestate: string, pattern: Pattern, key: string)
    ensures var r := Lookup(gamestate, pattern, key);
      && (r.Found? || r.NotFound?)
      && (r.NotFound? <==> forall k :: 0 <= k ==> !MatchesAt(gamestate, pattern.Head(), k))
      && (r.Found? ==> forall c :: c in r.text ==> !IsSeparator(c))
  {
    SearchFromSpec(gamestate, pattern.Head(), 0);
    match Search(gamestate, pattern.Head())
    case None =>
    case Some(m) =>
      CleanHasNoSeparators(gamestate[m.start..m.end], key);
  }

  /** The value extracted for field `name` of the given shape. */
  function Extract(gamestate: string, shape: Shape, name: string): Value {
    Lookup(gamestate, Pattern(shape, name), name)
  }

  /** A line `name=value` or `name="value"` (indented by one tab for a nested
      field) that is the first line matching the field's pattern yields exactly
      `value`, when neither the name nor the value holds a newline, tab, `=` or
      `"`, and the name does not occur inside the value. */
  lemma ExtractKeyValueLine(gamestate: string, shape: Shape, name: string, q: string, value: string,
                            pre: string, post: string)
    requires gamestate == pre + Prefix(shape) + name + "=" + q + value + q + "\n" + post
    requires forall k :: 0 <= k < |pre| ==> !MatchesAt(gamestate, Prefix(shape) + name, k)
    requires q == "" || q == "\""
    requires |name| > 0 && forall c :: c in name ==> !IsSeparator(c)
    requires forall c :: c in value ==> !IsSeparator(c)
    requires Absent(name, value)
    ensures Extract(gamestate, shape, name) == Found(value)
  {
    var v := "=" + q + value + q;
    KeyValueLineParts(pre, Prefix(shape), name, q, value, post);
    assert '\n' !in v by {
      assert '\n' !in value;
      assert v == "=" + (q + value + q);
    }
    ExtractFirstLine(gamestate, shape, name, pre, v, post);
    CleanKeyValueLine(Prefix(shape), name, q, value);
  }

  /** Regrouping the parts of a key/value line. */
  lemma KeyValueLineParts(pre: string, prefix: string, name: string, q: string, value: string, post: string)
    ensures pre + prefix + name + "=" + q + value + q + "\n" + post
         == pre + (prefix + name) + ("=" + q + value + q) + "\n" + post
    ensures prefix + name + ("=" + q + value + q) + "\n" == prefix + name + "=" + q + value + q + "\n"
  {
  }

  /** The first matching line is what gets cleaned. */
  lemma ExtractFirstLine(gamestate: string, shape: Shape, name: string, pre: string, v: string, post: string)
    requires gamestate == pre + (Prefix(shape) + name) + v + "\n" + post
    requires '\n' !in v
    requires forall k :: 0 <= k < |pre| ==> !MatchesAt(gamestate, Prefix(shape) + name, k)
    ensures Extract(gamestate, shape, name) == Found(Clean(Prefix(shape) + name + v + "\n", name))
  {
    SearchFindsFirstLine(gamestate, Prefix(shape) + name, pre, v, post);
  }

  /** What follows the first matching line, later lines for the same field
      included, does not change what is extracted. */
  lemma ExtractIgnoresLaterText(gamestate: string, more: string, shape: Shape, name: string)
    requires Extract(gamestate, shape, name).Found?
    ensures Extract(gamestate + more, shape, name) == Extract(gamestate, shape, name)
  {
    var head := Prefix(shape) + name;
    SearchFromIgnoresSuffix(gamestate, more, head, 0);
    var m := Search(gamestate, head).value;
    MatchedTextShape(gamestate, head);
    SliceOfAppend(gamestate, more, m.start, m.end);
  }

  // ---------------------------------------------------------------------------
  // Pattern tables and the search loop

  /** The pattern tables of `open_file_dialog`: the dictionary comprehension
      from each configured name to its compiled pattern, then the ordered copy
      filled in configured order. */
  method BuildPatternTable(names: seq<string>, shape: Shape) returns (table: OrderedDict<Pattern>)
    ensures fresh(table) && table.Valid()
    ensures table.keys == Dedup(names)
    ensures table.entries == Compiled(names, shape)
  {
    var compiled := Compiled(names, shape);
    table := new OrderedDict<Pattern>();
    var i := 0;
    while i < |names|
      invariant 0 <= i <= |names|
      invariant table.Valid()
      invariant table.keys == Dedup(names[..i])
      invariant table.entries == Compiled(names[..i], shape)
    {
      DedupPrefixStep(names, i);
      CompiledStep(names, i, shape);
      table.Set(names[i], compiled[names[i]]);
      i := i + 1;
    }
    WholePrefix(names);
  }

  lemma WholePrefix(names: seq<string>)
    ensures names[..|names|] == names
  {
  }

  /** The comprehension `{name: pattern(name) for name in names}`. */
  function Compiled(names: seq<string>, shape: Shape): map<string, Pattern> {
    map n | n in names :: Pattern(shape, n)
  }

  lemma CompiledStep(names: seq<string>, i: nat, shape: Shape)
    requires i < |names|
    ensures Compiled(names[..i], shape)[names[i] := Pattern(shape, names[i])] == Compiled(names[..i + 1], shape)
  {
    assert names[..i + 1] == names[..i] + [names[i]];
  }

  /** The values the search loop stores for `keys`, key by key in order. */
  function LookupAll(gamestate: string, patterns: map<string, Pattern>, keys: seq<string>): (r: map<string, Value>)
    requires forall k :: k in keys ==> k in patterns
    ensures r.Keys == set k | k in keys
  {
    if keys == [] then map[]
    else
      var key := keys[|keys| - 1];
      LookupAll(gamestate, patterns, keys[..|keys| - 1])[key := Lookup(gamestate, patterns[key], key)]
  }

  /** Each key ends up with its own pattern's value, whatever the order and
      repetitions of the keys. */
  lemma {:induction false} LookupAllValues(gamestate: string, patterns: map<string, Pattern>, keys: seq<string>)
    requires forall k :: k in keys ==> k in patterns
    ensures LookupAll(gamestate, patterns, keys) == map k | k in keys :: Lookup(gamestate, patterns[k], k)
  {
    if keys != [] {
      var init := keys[..|keys| - 1];
      assert forall k :: k in init ==> k in keys;
      LookupAllValues(gamestate, patterns, init);
      InitLast(keys);
    }
  }

  /** One more iteration of the search loop, on the stored values: looking up
      the next key adds exactly that key's value. */
  lemma LookupAllStep(gamestate: string, patterns: map<string, Pattern>, keys: seq<string>, i: nat,
                      stored: map<string, Value>)
    requires forall k :: k in keys ==> k in patterns
    requires i < |keys|
    ensures (stored + LookupAll(gamestate, patterns, keys[..i]))[keys[i] := Lookup(gamestate, patterns[keys[i]], keys[i])]
         == stored + LookupAll(gamestate, patterns, keys[..i + 1])
  {
    assert keys[..i + 1][..i] == keys[..i];
  }

  /** `dictionary_searcher_regex`: for each key of the table, in table order,
      store the key's extracted value (or the not-found placeholder) in
      `found`. Keys new to `found` are appended in table order; every key's value
      depends only on its own pattern. */
  method SearchFields(gamestate: string, table: OrderedDict<Pattern>, found: OrderedDict<Value>)
    requires table.Valid() && found.Valid()
    modifies found
    ensures found.Valid()
    ensures found.keys == Dedup(old(found.keys) + table.keys)
    ensures found.entries == old(found.entries) + LookupAll(gamestate, table.entries, table.keys)
  {
    DedupOfDistinct(found.keys);
    assert found.keys + table.keys[..0] == found.keys;
    ghost var before := found.keys;
    ghost var stored := found.entries;
    var i := 0;
    while i < |table.keys|
      invariant 0 <= i <= |table.keys|
      invariant found.Valid()
      invariant found.keys == Dedup(before + table.keys[..i])
      invariant found.entries == stored + LookupAll(gamestate, table.entries, table.keys[..i])
    {
      var key := table.keys[i];
      LookupAllStep(gamestate, table.entries, table.keys, i, stored);
      DedupStep(before, table.keys, i);
      found.Set(key, Lookup(gamestate, table.entries[key], key));
      i := i + 1;
    }
    assert table.keys[..i] == table.keys;
  }

  // ---------------------------------------------------------------------------
  // Derived values

  /** The outcome of `calculate_game_time_left`. */
  datatype Derived = Years(endYear: int, yearsLeft: int) | CalcFailed

  /** `int(found_gal_dict['victory_year'])`: a missing key raises `KeyError`,
      an extracted string goes through `int`, an integer is itself, and a
      placeholder string is not a number. */
  function VictoryYear(v: Option<Value>): (r: Option<int>)
    ensures r.Some? ==> v.Some? && (v.value.Found? || v.value.Number?)
  {
    match v
    case Some(Found(t)) => ParseInt(t)
    case Some(Number(n)) => Some(n)
    case _ => None
  }

  /** `int(found_gm_dict["date"][:4])`: the first four characters of the
      extracted date (all of it when shorter). An integer cannot be sliced and a
      placeholder's first four characters are not a number. */
  function CurrentYear(v: Option<Value>): (r: Option<int>)
    ensures r.Some? ==> v.Some? && v.value.Found?
    ensures r.Some? ==> exists i :: 0 <= i < 4 && i < |v.value.text| && IsDigit(v.value.text[i])
  {
    match v
    case Some(Found(t)) => ParseInt(t[..if |t| < 4 then |t| else 4])
    case _ => None
  }

  /** Both derived values, or neither. */
  function TimeLeft(victory: Option<Value>, date: Option<Value>, startingYear: int): (r: Derived)
    ensures r.Years? <==> VictoryYear(victory).Some? && CurrentYear(date).Some?
    ensures r.Years? ==> r.endYear - startingYear == VictoryYear(victory).value
    ensures r.Years? ==> r.yearsLeft == r.endYear - CurrentYear(date).value
  {
    var v, c := VictoryYear(victory), CurrentYear(date);
    if v.Some? && c.Some? then Years(startingYear + v.value, startingYear + v.value - c.value)
    else CalcFailed
  }

  function EndYearEntry(d: Derived): Value {
    if d.Years? then Number(d.endYear) else CalcError
  }

  function YearsLeftEntry(d: Derived): Value {
    if d.Years? then Number(d.yearsLeft) else CalcError
  }

  /** Read from a save: a victory year rendered as text and a date whose first
      four characters are a four-digit year give end year = starting year +
      victory year and years left = end year - current year (negative once the
      end year is past). */
  lemma TimeLeftFromSaveText(startingYear: int, victory: int, year: nat, dateRest: string)
    requires 1000 <= year <= 9999
    ensures TimeLeft(Some(Found(ShowInt(victory))), Some(Found(ShowNat(year) + dateRest)), startingYear)
         == Years(startingYear + victory, startingYear + victory - year)
  {
    VictoryYearOfText(victory);
    CurrentYearOfText(year, dateRest);
  }

  lemma VictoryYearOfText(victory: int)
    ensures VictoryYear(Some(Found(ShowInt(victory)))) == Some(victory)
  {
    ParseShowRoundTrip(victory);
  }

  lemma CurrentYearOfText(year: nat, dateRest: string)
    requires 1000 <= year <= 9999
    ensures CurrentYear(Some(Found(ShowNat(year) + dateRest))) == Some(year)
  {
    var date := ShowNat(year) + dateRest;
    YearPrefix(year, dateRest);
    assert |date| >= 4;
  }

  /** The placeholder texts can never be read as years: `int` rejects the
      placeholder and the first four characters of it, whatever error
      description follows. This is why `VictoryYear` and `CurrentYear` map the
      placeholders to failure. */
  lemma PlaceholdersAreNotYears(detail: string)
    ensures ParseInt(NotFoundText + detail) == None
    ensures ParseInt((NotFoundText + detail)[..4]) == None
    ensures ParseInt(CalcErrorText + detail) == None
    ensures ParseInt((CalcErrorText + detail)[..4]) == None
  {
    ParseRejectsForeignChar(NotFoundText + detail, 0);
    ParseRejectsForeignChar((NotFoundText + detail)[..4], 0);
    ParseRejectsForeignChar(CalcErrorText + detail, 0);
    ParseRejectsForeignChar((CalcErrorText + detail)[..4], 0);
  }

  /** All or nothing: the calculation fails exactly when the victory year or
      the date's first four characters cannot be read as an integer, and then
      both derived entries are placeholders. */
  lemma TimeLeftAllOrNothing(victory: Option<Value>, date: Option<Value>, startingYear: int)
    ensures TimeLeft(victory, date, startingYear).CalcFailed?
        <==> VictoryYear(victory).None? || CurrentYear(date).None?
    ensures var d := TimeLeft(victory, date, startingYear);
      d.CalcFailed? ==> EndYearEntry(d) == CalcError && YearsLeftEntry(d) == CalcError
  {
  }

  /** A victory year or date that is missing, not found, or itself a failed
      calculation makes both derived values fail. */
  lemma TimeLeftFailsWithoutInputs(victory: Option<Value>, date: Option<Value>, startingYear: int)
    requires victory.None? || victory.value.NotFound? || victory.value.CalcError?
          || date.None? || !date.value.Found?
    ensures TimeLeft(victory, date, startingYear) == CalcFailed
  {
  }

  /** `calculate_game_time_left`: appends (or overwrites) the two derived
      entries of the game dictionary, both numbers or both placeholders. The
      inputs are read before anything is written, so the two dictionaries may be
      the same object. */
  method CalculateGameTimeLeft(galaxy: OrderedDict<Value>, game: OrderedDict<Value>, startingYear: int)
    requires galaxy.Valid() && game.Valid()
    modifies game
    ensures game.Valid()
    ensures game.keys == Dedup(old(game.keys) + [EndYearLabel, YearsLeftLabel])
    ensures var d := TimeLeft(old(galaxy.Get(VictoryYearKey)), old(game.Get(DateKey)), startingYear);
      game.entries == old(game.entries)[EndYearLabel := EndYearEntry(d)][YearsLeftLabel := YearsLeftEntry(d)]
  {
    var victory := galaxy.Get(VictoryYearKey);
    var date := game.Get(DateKey);
    var d := TimeLeft(victory, date, startingYear);
    ghost var before := game.keys;
    DedupOfDistinct(before);
    game.Set(EndYearLabel, EndYearEntry(d));
    DedupSnoc(before, EndYearLabel);
    game.Set(YearsLeftLabel, YearsLeftEntry(d));
    DedupSnoc(before + [EndYearLabel], YearsLeftLabel);
    AppendPair(before, EndYearLabel, YearsLeftLabel);
  }

  // ---------------------------------------------------------------------------
  // One run

  /** What a run stores for each configured name of one shape. */
  function ExtractAll(gamestate: string, shape: Shape, names: seq<string>): map<string, Value> {
    map n | n in names :: Extract(gamestate, shape, n)
  }

  /** Searching with the table built from `names` extracts every name with its
      own pattern. */
  lemma TableLookupIsExtractAll(gamestate: string, shape: Shape, names: seq<string>)
    ensures LookupAll(gamestate, Compiled(names, shape), Dedup(names))
         == ExtractAll(gamestate, shape, names)
  {
    LookupAllValues(gamestate, Compiled(names, shape), Dedup(names));
  }

  /** What a search into a fresh dictionary leaves there. */
  lemma FreshSearchKeys(names: seq<string>)
    ensures Dedup([] + Dedup(names)) == Dedup(names)
  {
    assert [] + Dedup(names) == Dedup(names);
    DedupOfDistinct(Dedup(names));
  }

  lemma FreshSearchEntries(gamestate: string, shape: Shape, names: seq<string>)
    ensures map[] + LookupAll(gamestate, Compiled(names, shape), Dedup(names)) == ExtractAll(gamestate, shape, names)
  {
    TableLookupIsExtractAll(gamestate, shape, names);
  }

  /** The extraction in `open_file_dialog`, after the archive entry has been
      read: `dictionary_searcher_regex` on the galaxy fields, then on the game
      fields, then `calculate_game_time_left` appending the derived values to
      the game dictionary.
      Each dictionary has one key per distinct configured name, in order of first
      occurrence; the two derived labels come after every game field unless a
      configured game name already uses them. */
  method ReadGamestate(gamestate: string, gameNames: seq<string>, galaxyNames: seq<string>, startingYear: int)
    returns (game: OrderedDict<Value>, galaxy: OrderedDict<Value>)
    ensures fresh(game) && fresh(galaxy) && game != galaxy
    ensures game.Valid() && galaxy.Valid()
    ensures galaxy.keys == Dedup(galaxyNames)
    ensures galaxy.entries == ExtractAll(gamestate, Nested, galaxyNames)
    ensures game.keys == Dedup(gameNames + [EndYearLabel, YearsLeftLabel])
    ensures EndYearLabel !in gameNames && YearsLeftLabel !in gameNames ==>
      game.keys == Dedup(gameNames) + [EndYearLabel, YearsLeftLabel]
    ensures var flat := ExtractAll(gamestate, Flat, gameNames);
      var d := TimeLeft(MapGet(galaxy.entries, VictoryYearKey), MapGet(flat, DateKey), startingYear);
      game.entries == flat[EndYearLabel := EndYearEntry(d)][YearsLeftLabel := YearsLeftEntry(d)]
  {
    var gameTable := BuildPatternTable(gameNames, Flat);
    game := new OrderedDict<Value>();
    var galaxyTable := BuildPatternTable(galaxyNames, Nested);
    galaxy := new OrderedDict<Value>();

    SearchFields(gamestate, galaxyTable, galaxy);
    FreshSearchKeys(galaxyNames);
    FreshSearchEntries(gamestate, Nested, galaxyNames);
    ghost var galaxyEntries := galaxy.entries;

    SearchFields(gamestate, gameTable, game);
    FreshSearchKeys(gameNames);
    FreshSearchEntries(gamestate, Flat, gameNames);
    ghost var flat := game.entries;
    ghost var d := TimeLeft(galaxy.Get(VictoryYearKey), game.Get(DateKey), startingYear);
    assert d == TimeLeft(MapGet(galaxyEntries, VictoryYearKey), MapGet(flat, DateKey), startingYear);

    CalculateGameTimeLeft(galaxy, game, startingYear);
    assert game.entries == flat[EndYearLabel := EndYearEntry(d)][YearsLeftLabel := YearsLeftEntry(d)];
    DedupAppend(gameNames, [EndYearLabel, YearsLeftLabel]);
    if EndYearLabel !in gameNames && YearsLeftLabel !in gameNames {
      DedupAppendTwo(gameNames, EndYearLabel, YearsLeftLabel);
    }
  }
}
