/** `SignalLibrary`: stored signals' metadata by name, the queries over
    it, and the key:value header parsing of Flipper `.sub` files. The
    library's dictionary is a map plus the order its keys were first
    inserted in, which is the order Python iterates it in. */
module SignalLibraries {
  import opened Common
  import opened ProtocolRegistry
  import opened SubGhzSignals

  /** `SignalMetadata`. `tags` is `None` only for metadata that did not
      come from `add_signal`. */
  datatype SignalMetadata = SignalMetadata(
    name: string,
    frequency: real,
    modulation: string,
    protocol: Option<string>,
    category: string,
    description: Option<string>,
    tags: Option<seq<string>>)

  // ---------------------------------------------------------------------
  // String order (`sorted` on `str`): lexicographic by code point.

  predicate LexLess(a: string, b: string)
  {
    if a == [] then b != []
    else if b == [] then false
    else a[0] < b[0] || (a[0] == b[0] && LexLess(a[1..], b[1..]))
  }

  lemma {:induction false} LexLessIrreflexive(a: string)
    ensures !LexLess(a, a)
  {
    if a != [] {
      LexLessIrreflexive(a[1..]);
    }
  }

  lemma {:induction false} LexLessTransitive(a: string, b: string, c: string)
    requires LexLess(a, b) && LexLess(b, c)
    ensures LexLess(a, c)
  {
    if a != [] && a[0] == b[0] && b[0] == c[0] {
      LexLessTransitive(a[1..], b[1..], c[1..]);
    }
  }

  lemma {:induction false} LexLessTotal(a: string, b: string)
    ensures a == b || LexLess(a, b) || LexLess(b, a)
  {
    if a != [] && b != [] && a[0] == b[0] {
      LexLessTotal(a[1..], b[1..]);
      if a[1..] == b[1..] {
        assert a == [a[0]] + a[1..] && b == [b[0]] + b[1..];
      }
    }
  }

  predicate StrictlySorted(s: seq<string>)
  {
    forall i, j :: 0 <= i < j < |s| ==> LexLess(s[i], s[j])
  }

  /** Put `x` into a strictly sorted list unless it is already there. */
  function Insert(s: seq<string>, x: string): seq<string>
  {
    if s == [] then [x]
    else if x == s[0] then s
    else if LexLess(x, s[0]) then [x] + s
    else [s[0]] + Insert(s[1..], x)
  }

  lemma {:induction false} InsertKeepsSorted(s: seq<string>, x: string)
    requires StrictlySorted(s)
    ensures StrictlySorted(Insert(s, x))
    ensures forall y :: y in Insert(s, x) <==> y in s || y == x
  {
    if s == [] {
    } else if x == s[0] {
    } else if LexLess(x, s[0]) {
      var r := [x] + s;
      forall i, j | 0 <= i < j < |r| ensures LexLess(r[i], r[j]) {
        if i == 0 && j > 1 {
          LexLessTransitive(x, s[0], s[j - 1]);
        }
      }
    } else {
      InsertKeepsSorted(s[1..], x);
      LexLessTotal(x, s[0]);
      var rest := Insert(s[1..], x);
      var r := [s[0]] + rest;
      forall i, j | 0 <= i < j < |r| ensures LexLess(r[i], r[j]) {
        if i == 0 {
          assert r[j] in rest;
          if r[j] != x {
            var k :| 0 <= k < |s[1..]| && s[1..][k] == r[j];
            assert s[k + 1] == r[j];
          }
        } else {
          assert r[i] == rest[i - 1] && r[j] == rest[j - 1];
        }
      }
      assert forall y :: y in s <==> y == s[0] || y in s[1..] by {
        assert s == [s[0]] + s[1..];
      }
    }
  }

  /** A category occurs in the entries. */
  predicate HasCategory(entries: seq<SignalMetadata>, c: string)
  {
    exists i :: 0 <= i < |entries| && entries[i].category == c
  }

  /** `sorted(set(meta.category for meta in signals.values()))`. */
  function Categories(entries: seq<SignalMetadata>): seq<string>
  {
    if entries == [] then []
    else Insert(Categories(entries[..|entries| - 1]), entries[|entries| - 1].category)
  }

  /** The categories are strictly increasing, so each appears once, and
      they are exactly the categories of the entries. */
  lemma {:induction false} CategoriesSortedAndComplete(entries: seq<SignalMetadata>)
    ensures StrictlySorted(Categories(entries))
    ensures forall c :: c in Categories(entries) <==> HasCategory(entries, c)
  {
    if entries != [] {
      var init := entries[..|entries| - 1];
      var last := entries[|entries| - 1];
      CategoriesSortedAndComplete(init);
      InsertKeepsSorted(Categories(init), last.category);
      forall c ensures c in Categories(entries) <==> HasCategory(entries, c) {
        if HasCategory(init, c) {
          var i :| 0 <= i < |init| && init[i].category == c;
          assert entries[i].category == c;
        }
        if HasCategory(entries, c) && c != last.category {
          var i :| 0 <= i < |entries| && entries[i].category == c;
          assert init[i].category == c;
        }
      }
    }
  }

  /** A strictly sorted list is fixed by its elements: it is the sorted
      list of that set. */
  lemma {:induction false} StrictlySortedUnique(a: seq<string>, b: seq<string>)
    requires StrictlySorted(a) && StrictlySorted(b)
    requires forall x :: x in a <==> x in b
    ensures a == b
  {
    if a != [] {
      assert a[0] in a;
    }
    if b != [] {
      assert b[0] in b;
    }
    if a != [] && b != [] {
      // The first element of each is the least element of the other.
      if a[0] != b[0] {
        assert a[0] in a && b[0] in b;
        var ka :| 0 <= ka < |b| && b[ka] == a[0];
        var kb :| 0 <= kb < |a| && a[kb] == b[0];
        assert ka > 0 && kb > 0;
        LexLessTransitive(a[0], a[kb], b[ka]);
        assert LexLess(b[0], b[ka]);
        LexLessTransitive(a[0], b[0], a[0]);
        LexLessIrreflexive(a[0]);
      }
      forall x ensures x in a[1..] <==> x in b[1..] {
        if x in a[1..] {
          var i :| 0 <= i < |a[1..]| && a[1..][i] == x;
          assert LexLess(a[0], x);
          LexLessIrreflexive(x);
          assert x in b;
          var j :| 0 <= j < |b| && b[j] == x;
          assert j != 0;
          assert b[1..][j - 1] == x;
        }
        if x in b[1..] {
          var i :| 0 <= i < |b[1..]| && b[1..][i] == x;
          assert LexLess(b[0], x);
          LexLessIrreflexive(x);
          assert x in a;
          var j :| 0 <= j < |a| && a[j] == x;
          assert j != 0;
          assert a[1..][j - 1] == x;
        }
      }
      StrictlySortedUnique(a[1..], b[1..]);
      assert a == [a[0]] + a[1..] && b == [b[0]] + b[1..];
    }
  }

  // ---------------------------------------------------------------------
  // Filtering the entries: by category and by the search criteria.

  /** `search_signals`' arguments; `None` for an argument not given. */
  datatype SearchQuery = SearchQuery(
    text: Option<string>,
    frequency: Option<real>,
    protocol: Option<string>,
    tags: Option<seq<string>>)

  const NoFilters := SearchQuery(None, None, None, None)

  /** The text test, as written: an entry is skipped only when the text is
      missing from its name AND it has a non-empty description that also
      lacks it. Entries without a description pass whatever the text. */
  predicate TextPasses(meta: SignalMetadata, text: Option<string>)
  {
    var skipped :=
      && text.Some? && text.value != []
      && !Contains(Lower(meta.name), Lower(text.value))
      && meta.description.Some? && meta.description.value != []
      && !Contains(Lower(meta.description.value), Lower(text.value));
    !skipped
  }

  /** Within 0.1 MHz; `None` and `0.0` switch the test off. */
  predicate FrequencyPasses(meta: SignalMetadata, frequency: Option<real>)
  {
    frequency.None? || frequency.value == 0.0 || AbsReal(meta.frequency - frequency.value) <= 0.1
  }

  /** Exact equality; `None` and `""` switch the test off. */
  predicate ProtocolPasses(meta: SignalMetadata, protocol: Option<string>)
  {
    protocol.None? || protocol.value == [] || meta.protocol == Some(protocol.value)
  }

  /** Every requested tag is among the entry's tags (`meta.tags or []`);
      `None` and `[]` switch the test off. */
  predicate TagsPasses(meta: SignalMetadata, tags: Option<seq<string>>)
  {
    var own := if meta.tags.Some? then meta.tags.value else [];
    tags.None? || tags.value == [] || forall t :: t in tags.value ==> t in own
  }

  predicate Passes(meta: SignalMetadata, query: SearchQuery)
  {
    && TextPasses(meta, query.text)
    && FrequencyPasses(meta, query.frequency)
    && ProtocolPasses(meta, query.protocol)
    && TagsPasses(meta, query.tags)
  }

  /** The `continue` tests of the search loop, in their order. */
  method Skips(meta: SignalMetadata, query: SearchQuery) returns (skip: bool)
    ensures skip <==> !Passes(meta, query)
  {
    if query.text.Some? && |query.text.value| > 0
      && !Contains(Lower(meta.name), Lower(query.text.value))
      && (meta.description.Some? && |meta.description.value| > 0
          && !Contains(Lower(meta.description.value), Lower(query.text.value))) {
      return true;
    }
    if query.frequency.Some? && query.frequency.value != 0.0
      && AbsReal(meta.frequency - query.frequency.value) > 0.1 {
      return true;
    }
    if query.protocol.Some? && |query.protocol.value| > 0 && meta.protocol != Some(query.protocol.value) {
      return true;
    }
    if query.tags.Some? && |query.tags.value| > 0
      && !(forall t :: t in query.tags.value ==> t in (if meta.tags.Some? then meta.tags.value else [])) {
      return true;
    }
    return false;
  }

  /** What an entry is kept for. */
  datatype Criterion = CategoryIs(category: string) | Matches(query: SearchQuery)

  predicate Keeps(criterion: Criterion, meta: SignalMetadata)
  {
    match criterion
    case CategoryIs(c) => meta.category == c
    case Matches(q) => Passes(meta, q)
  }

  /** The entries kept, in their order (a list comprehension with an
      `if`). */
  function Filter(entries: seq<SignalMetadata>, criterion: Criterion): seq<SignalMetadata>
  {
    if entries == [] then []
    else
      var last := entries[|entries| - 1];
      Filter(entries[..|entries| - 1], criterion) + (if Keeps(criterion, last) then [last] else [])
  }

  /** One more entry: it is appended when kept. */
  lemma FilterStep(entries: seq<SignalMetadata>, k: nat, criterion: Criterion)
    requires k < |entries|
    ensures Filter(entries[..k + 1], criterion)
      == Filter(entries[..k], criterion) + (if Keeps(criterion, entries[k]) then [entries[k]] else [])
  {
    assert entries[..k + 1][..k] == entries[..k];
  }

  /** The result holds exactly the entries kept, and no more of them than
      there are. */
  lemma {:induction false} FilterMembers(entries: seq<SignalMetadata>, criterion: Criterion)
    ensures |Filter(entries, criterion)| <= |entries|
    ensures forall m :: m in Filter(entries, criterion) <==> m in entries && Keeps(criterion, m)
  {
    if entries != [] {
      var init := entries[..|entries| - 1];
      FilterMembers(init, criterion);
      assert entries == init + [entries[|entries| - 1]];
    }
  }

  /** A kept entry appears in the result as often as in the entries, a
      dropped one not at all. */
  lemma {:induction false} FilterCounts(entries: seq<SignalMetadata>, criterion: Criterion, m: SignalMetadata)
    ensures multiset(Filter(entries, criterion))[m] == if Keeps(criterion, m) then multiset(entries)[m] else 0
  {
    if entries != [] {
      var init := entries[..|entries| - 1];
      var last := entries[|entries| - 1];
      FilterCounts(init, criterion, m);
      assert entries == init + [last];
      assert multiset(entries) == multiset(init) + multiset([last]);
      var tail := if Keeps(criterion, last) then [last] else [];
      assert multiset(Filter(entries, criterion)) == multiset(Filter(init, criterion)) + multiset(tail);
    }
  }

  /** Filtering keeps the order: filtering a concatenation concatenates
      the filtered parts. */
  lemma {:induction false} FilterAppend(a: seq<SignalMetadata>, b: seq<SignalMetadata>, criterion: Criterion)
    ensures Filter(a + b, criterion) == Filter(a, criterion) + Filter(b, criterion)
  {
    if b != [] {
      var init := b[..|b| - 1];
      FilterAppend(a, init, criterion);
      assert (a + b)[..|a + b| - 1] == a + init;
      assert (a + b)[|a + b| - 1] == b[|b| - 1];
    } else {
      assert a + b == a;
    }
  }

  /** When every entry is kept the result is the entries themselves. */
  lemma {:induction false} FilterKeepsAll(entries: seq<SignalMetadata>, criterion: Criterion)
    requires forall i :: 0 <= i < |entries| ==> Keeps(criterion, entries[i])
    ensures Filter(entries, criterion) == entries
  {
    if entries != [] {
      FilterKeepsAll(entries[..|entries| - 1], criterion);
      assert entries == entries[..|entries| - 1] + [entries[|entries| - 1]];
    }
  }

  /** `search_signals()` with no arguments lists every entry, in order. */
  lemma SearchWithoutFiltersKeepsAll(entries: seq<SignalMetadata>)
    ensures Filter(entries, Matches(NoFilters)) == entries
  {
    FilterKeepsAll(entries, Matches(NoFilters));
  }

  /** The text quirk: an entry without a description is found by any
      text, and an entry is dropped by a text only when both its name and
      its non-empty description lack it. */
  lemma TextFilterQuirk(meta: SignalMetadata, text: string)
    ensures meta.description.None? ==> TextPasses(meta, Some(text))
    ensures !TextPasses(meta, Some(text)) <==>
      text != [] && !Contains(Lower(meta.name), Lower(text))
      && meta.description.Some? && meta.description.value != []
      && !Contains(Lower(meta.description.value), Lower(text))
  {
  }

  /** Case does not matter to the text test. */
  lemma TextFilterIgnoresCase(meta: SignalMetadata, text: string)
    ensures TextPasses(meta, Some(text)) == TextPasses(meta, Some(Lower(text)))
  {
    LowerIdempotent(text);
  }

  // ---------------------------------------------------------------------
  // `.sub` header lines.

  /** The first position of `c` in `s`. */
  function IndexOf(s: string, c: char): (i: nat)
    requires c in s
    ensures i < |s| && s[i] == c && c !in s[..i]
  {
    if s[0] == c then 0
    else
      var i := IndexOf(s[1..], c) + 1;
      assert s[..i] == [s[0]] + s[1..][..i - 1];
      i
  }

  /** `s.split('\n')`: the pieces between newlines, at least one. */
  function SplitLines(s: string): (r: seq<string>)
    ensures |r| >= 1
    ensures forall k :: 0 <= k < |r| ==> '\n' !in r[k]
    decreases |s|
  {
    if '\n' !in s then [s]
    else
      var i := IndexOf(s, '\n');
      [s[..i]] + SplitLines(s[i + 1..])
  }

  /** `'\n'.join(lines)`. */
  function JoinLines(lines: seq<string>): string
    requires |lines| >= 1
  {
    if |lines| == 1 then lines[0] else lines[0] + "\n" + JoinLines(lines[1..])
  }

  /** Splitting loses nothing: joining the pieces gives the text back. */
  lemma {:induction false} JoinSplitLines(s: string)
    ensures JoinLines(SplitLines(s)) == s
    decreases |s|
  {
    if '\n' in s {
      var i := IndexOf(s, '\n');
      var rest := s[i + 1..];
      JoinSplitLines(rest);
      var pieces := SplitLines(s);
      assert pieces == [s[..i]] + SplitLines(rest);
      assert pieces[1..] == SplitLines(rest);
      assert JoinLines(pieces) == s[..i] + "\n" + JoinLines(pieces[1..]);
      assert s == s[..i] + "\n" + rest;
    }
  }

  /** A `key: value` header field. */
  datatype Field = Field(key: string, value: string)

  /** `line.split(':', 1)` with both halves stripped, for a line holding a
      ':'; other lines carry no field. The key is what precedes the first
      ':', so it holds none. */
  function ParseLine(line: string): (r: Option<Field>)
    ensures r.Some? <==> ':' in line
    ensures r.Some? ==> ':' !in r.value.key
  {
    if ':' in line then
      var i := IndexOf(line, ':');
      var key := Strip(line[..i]);
      StripAddsNothing(line[..i], ':');
      Some(Field(key, Strip(line[i + 1..])))
    else None
  }

  /** The field of every line, in order. */
  function ParseLines(lines: seq<string>): (r: seq<Option<Field>>)
    ensures |r| == |lines|
    ensures forall k :: 0 <= k < |lines| ==> r[k] == ParseLine(lines[k])
  {
    seq(|lines|, k requires 0 <= k < |lines| => ParseLine(lines[k]))
  }

  /** The dictionary the header loop builds from the fields seen so far. */
  function Fold(fields: seq<Option<Field>>): map<string, string>
  {
    if fields == [] then map[]
    else
      var m := Fold(fields[..|fields| - 1]);
      var last := fields[|fields| - 1];
      if last.Some? then m[last.value.key := last.value.value] else m
  }

  /** The fields of a `.sub` file's lines, in order. */
  function SubFields(content: string): seq<Option<Field>>
  {
    ParseLines(SplitLines(content))
  }

  /** The header dictionary of a `.sub` file's text. */
  function SubMetadata(content: string): map<string, string>
  {
    Fold(SubFields(content))
  }

  /** Field `i` exists and is for `key`. */
  predicate NamesKey(fields: seq<Option<Field>>, i: int, key: string)
  {
    0 <= i < |fields| && fields[i].Some? && fields[i].value.key == key
  }

  /** A key is present exactly when some field carries it. */
  lemma {:induction false} FoldKeys(fields: seq<Option<Field>>, key: string)
    ensures key in Fold(fields) <==> exists i :: NamesKey(fields, i, key)
  {
    if fields != [] {
      var init := fields[..|fields| - 1];
      var last := fields[|fields| - 1];
      FoldKeys(init, key);
      if last.Some? && last.value.key == key {
        assert NamesKey(fields, |fields| - 1, key);
      } else {
        if exists i :: NamesKey(init, i, key) {
          var i :| NamesKey(init, i, key);
          assert NamesKey(fields, i, key);
        }
        if exists i :: NamesKey(fields, i, key) {
          var i :| NamesKey(fields, i, key);
          assert NamesKey(init, i, key);
        }
      }
    }
  }

  /** A present key takes its value from the last field that carries it:
      later lines win. */
  lemma {:induction false} FoldLastWins(fields: seq<Option<Field>>, key: string)
    requires key in Fold(fields)
    ensures exists i :: (&& NamesKey(fields, i, key)
                         && Fold(fields)[key] == fields[i].value.value
                         && forall j :: i < j < |fields| ==> !NamesKey(fields, j, key))
  {
    var init := fields[..|fields| - 1];
    var last := fields[|fields| - 1];
    if last.Some? && last.value.key == key {
      assert NamesKey(fields, |fields| - 1, key);
    } else {
      FoldLastWins(init, key);
      var i :| NamesKey(init, i, key)
        && Fold(init)[key] == init[i].value.value
        && forall j :: i < j < |init| ==> !NamesKey(init, j, key);
      assert NamesKey(fields, i, key);
      forall j | i < j < |fields| ensures !NamesKey(fields, j, key) {
        if j < |init| {
          assert !NamesKey(init, j, key);
        }
      }
    }
  }

  /** One more field on the prefix is one more dictionary update. */
  lemma FoldPrefixStep(fields: seq<Option<Field>>, k: nat)
    requires k < |fields|
    ensures Fold(fields[..k + 1])
      == if fields[k].Some? then Fold(fields[..k])[fields[k].value.key := fields[k].value.value]
         else Fold(fields[..k])
  {
    assert fields[..k + 1][..k] == fields[..k];
  }

  /** The header loop of `load_signal_file` for `.sub` files. */
  method ParseSubMetadata(content: string) returns (metadata: map<string, string>)
    ensures metadata == SubMetadata(content)
  {
    var lines := SplitLines(content);
    ghost var fields := ParseLines(lines);
    metadata := map[];
    for k := 0 to |lines|
      invariant metadata == Fold(fields[..k])
    {
      FoldPrefixStep(fields, k);
      var field := SplitField(lines[k]);
      if field.Some? {
        metadata := metadata[field.value.key := field.value.value];
      }
    }
    assert fields[..|lines|] == fields;
  }

  /** The body of the header loop: find the first ':' and strip both
      sides. */
  method SplitField(line: string) returns (field: Option<Field>)
    ensures field == ParseLine(line)
  {
    if ':' !in line {
      return None;
    }
    var i := 0;
    while line[i] != ':'
      invariant 0 <= i < |line| && ':' !in line[..i] && ':' in line[i..]
      decreases |line| - i
    {
      assert line[..i + 1] == line[..i] + [line[i]];
      i := i + 1;
    }
    IndexOfIsFirst(line, ':', i);
    field := Some(Field(Strip(line[..i]), Strip(line[i + 1..])));
  }

  /** The first position of `c` is the only one with no `c` before it. */
  lemma {:induction false} IndexOfIsFirst(s: string, c: char, i: nat)
    requires i < |s| && s[i] == c && c !in s[..i]
    ensures IndexOf(s, c) == i
  {
    if i > 0 {
      assert s[0] in s[..i];
      assert s[1..][i - 1] == c;
      assert s[1..][..i - 1] == s[..i][1..];
      IndexOfIsFirst(s[1..], c, i - 1);
    }
  }

  /** The header fields a `.sub` file names. */
  datatype SubHeader = SubHeader(frequency: string, modulation: string, protocol: string)

  /** The `.sub` branch of `load_signal_file` as written: when the header
      has `Frequency` and `Protocol` it calls `SubGHzSignal(frequency=...,
      modulation=..., data=..., protocol=...)`, whose constructor takes
      only `frequency` and `modulation`; the `TypeError` is caught by the
      `except` clause, so no file loads. Both branches are `None` on
      purpose: the test marks where the `TypeError` arises, and the other
      branch falls through to the `return None` after the test. */
  function LoadSubAsWritten(content: string): Option<SubHeader>
  {
    var metadata := SubMetadata(content);
    if "Frequency" in metadata && "Protocol" in metadata then
      None  // TypeError: unexpected keyword argument 'data', caught
    else
      None
  }

  /** The `.sub` branch as evidently intended: a header with `Frequency`
      and `Protocol` gives a signal description, with `ASK` when the
      modulation is missing. */
  function LoadSub(content: string): Option<SubHeader>
  {
    HeaderOf(SubMetadata(content))
  }

  /** The description a header dictionary gives, if any. */
  function HeaderOf(metadata: map<string, string>): Option<SubHeader>
  {
    if "Frequency" in metadata && "Protocol" in metadata then
      Some(SubHeader(
        metadata["Frequency"],
        if "Modulation" in metadata then metadata["Modulation"] else "ASK",
        metadata["Protocol"]))
    else
      None
  }

  /** A header dictionary built from fields gives a description exactly
      when some field names the frequency and some the protocol. */
  lemma FieldsGiveHeader(fields: seq<Option<Field>>)
    ensures HeaderOf(Fold(fields)).Some? <==>
      (exists i :: NamesKey(fields, i, "Frequency")) && (exists i :: NamesKey(fields, i, "Protocol"))
  {
    FoldKeys(fields, "Frequency");
    FoldKeys(fields, "Protocol");
  }

  /** The intended loader describes a file exactly when some header line
      names its frequency and some its protocol; the loader as written
      never does. */
  lemma LoadSubFindsHeader(content: string)
    ensures LoadSubAsWritten(content) == None
    ensures LoadSub(content).Some? <==>
      (exists i :: NamesKey(SubFields(content), i, "Frequency"))
      && (exists i :: NamesKey(SubFields(content), i, "Protocol"))
  {
    FieldsGiveHeader(SubFields(content));
  }

  /** Whenever the header names both a frequency and a protocol, the
      loader as written returns nothing where the intended one returns the
      header's fields. */
  lemma LoadSubDropsValidHeader(content: string)
    requires "Frequency" in SubMetadata(content) && "Protocol" in SubMetadata(content)
    ensures LoadSubAsWritten(content) == None
    ensures LoadSub(content).Some?
    ensures LoadSub(content).value.frequency == SubMetadata(content)["Frequency"]
    ensures LoadSub(content).value.protocol == SubMetadata(content)["Protocol"]
  {
  }

  /** The header lines `Frequency: 433920000` and `Protocol: Princeton`,
      once split, give both keys with their values. */
  lemma ExampleHeader()
    ensures var m := Fold([Some(Field("Frequency", "433920000")), Some(Field("Protocol", "Princeton"))]);
      m == map["Frequency" := "433920000", "Protocol" := "Princeton"]
  {
    var fields := [Some(Field("Frequency", "433920000")), Some(Field("Protocol", "Princeton"))];
    assert fields[..1][..0] == [];
    assert Fold(fields[..1]) == map["Frequency" := "433920000"];
  }

  // ---------------------------------------------------------------------
  // The library.

  /** `ModulationType.value`. */
  function ModulationValue(m: ModulationType): string
  {
    match m
    case AM => "AM"
    case FM => "FM"
    case ASK => "ASK"
    case FSK => "FSK"
    case OOK => "OOK"
    case PSK => "PSK"
  }

  /** The values of `signals` in the dictionary's order. */
  function InOrder(names: seq<string>, signals: map<string, SignalMetadata>): (r: seq<SignalMetadata>)
    requires forall k :: 0 <= k < |names| ==> names[k] in signals
    ensures |r| == |names|
    ensures forall k :: 0 <= k < |names| ==> r[k] == signals[names[k]]
  {
    if names == [] then []
    else InOrder(names[..|names| - 1], signals) + [signals[names[|names| - 1]]]
  }

  class SignalLibrary {
    /** The keys of `signals` in first-insertion order. */
    var names: seq<string>
    var signals: map<string, SignalMetadata>

    ghost predicate Valid()
      reads this
    {
      && (forall n :: n in signals <==> n in names)
      && (forall i, j :: 0 <= i < j < |names| ==> names[i] != names[j])
    }

    /** A library with nothing stored yet; reading the metadata file is
        not part of this model. */
    constructor ()
      ensures Valid() && names == [] && signals == map[]
    {
      names := [];
      signals := map[];
    }

    /** `signals.values()`. */
    function Values(): seq<SignalMetadata>
      reads this
      requires Valid()
    {
      InOrder(names, signals)
    }

    /** `get_categories`: each category in use, once, in sorted order. */
    function GetCategories(): (r: seq<string>)
      reads this
      requires Valid()
      ensures StrictlySorted(r)
      ensures forall c :: c in r <==> exists n :: n in signals && signals[n].category == c
    {
      var r := Categories(Values());
      CategoriesSortedAndComplete(Values());
      forall c ensures c in r <==> exists n :: n in signals && signals[n].category == c {
        if exists n :: n in signals && signals[n].category == c {
          var n :| n in signals && signals[n].category == c;
          var k :| 0 <= k < |names| && names[k] == n;
          assert Values()[k].category == c;
        }
      }
      r
    }

    /** `get_signals_in_category`. */
    function GetSignalsInCategory(category: string): (r: seq<SignalMetadata>)
      reads this
      requires Valid()
      ensures forall m :: m in r <==> m in Values() && m.category == category
    {
      FilterMembers(Values(), CategoryIs(category));
      Filter(Values(), CategoryIs(category))
    }

    /** `search_signals`: scan the entries in order and keep those that no
        given criterion rules out. */
    method SearchSignals(query: SearchQuery) returns (results: seq<SignalMetadata>)
      requires Valid()
      ensures results == Filter(Values(), Matches(query))
    {
      var entries := Values();
      results := [];
      for k := 0 to |entries|
        invariant results == Filter(entries[..k], Matches(query))
      {
        var meta := entries[k];
        FilterStep(entries, k, Matches(query));
        var skip := Skips(meta, query);
        if skip {
          continue;
        }
        results := results + [meta];
      }
      assert entries[..|entries|] == entries;
    }

    /** `get_signal`'s lookup: an unknown name gives `None`; a known one
        the file `<category>/<name>.json` to load. */
    function SignalFile(name: string): (r: Option<seq<string>>)
      reads this
      ensures r.None? <==> name !in signals
      ensures r.Some? ==> r.value == [signals[name].category, name + ".json"]
    {
      if name !in signals then None
      else Some([signals[name].category, name + ".json"])
    }

    /** `add_signal`: build the metadata from the signal and record it
        under `name` only when the signal file was saved (`saved`). An
        existing name keeps its place. */
    method AddSignal(signal: SubGHzSignal, name: string, category: string,
                     description: Option<string>, tags: Option<seq<string>>, saved: bool)
      returns (added: bool)
      requires Valid()
      modifies this
      ensures Valid()
      ensures added == saved
      ensures var meta := SignalMetadata(name, signal.frequency, ModulationValue(signal.modulation),
          signal.protocol, category, description, Some(if tags.Some? then tags.value else []));
        saved ==> signals == old(signals)[name := meta]
      ensures saved ==> names == old(names) + (if name in old(signals) then [] else [name])
      ensures !saved ==> signals == old(signals) && names == old(names)
    {
      var meta := SignalMetadata(name, signal.frequency, ModulationValue(signal.modulation),
        signal.protocol, category, description, Some(if tags.Some? then tags.value else []));
      if !saved {
        return false;
      }
      if name !in signals {
        names := names + [name];
      }
      signals := signals[name := meta];
      added := true;
    }
  }
}
