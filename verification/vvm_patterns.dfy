/** The carrier pattern table of the visual voicemail SMS filter
    (`buildPatternsMap`). Each configured entry reads `"mcc1,mcc2;regex"`;
    the pattern is appended to the list of every listed mccMnc. The table
    is built once: the process-wide `sPatterns` is threaded here as an
    explicit optional state. */
module VvmPatterns {
  import opened Common
  import opened JavaSplit

  /** A compiled `java.util.regex.Pattern`, known by its source text. */
  datatype Pattern = Pattern(regex: string)

  type PatternMap = map<string, seq<Pattern>>

  /** A configuration entry after splitting. */
  datatype CarrierEntry = CarrierEntry(mccMncs: seq<string>, pattern: Pattern)

  /** `sPatterns.get(key)`, with a missing key read as the empty list. */
  function Lookup(m: PatternMap, key: string): seq<Pattern>
  {
    if key in m then m[key] else []
  }

  /** Split one entry. `None` when Java throws: no part at index 0 or 1
      (an entry without `;`, or whose parts are all empty), or a regex that
      `Pattern.compile` rejects. Text after a second `;` is ignored. */
  function ParseEntry(entry: string, compiles: string -> bool): (r: Option<CarrierEntry>)
    ensures r.Some? <==> |Split(entry, ';')| >= 2 && compiles(Split(entry, ';')[1])
    ensures ';' !in entry ==> r.None?
    ensures r.Some? ==> r.value.pattern.regex == Split(entry, ';')[1]
    ensures r.Some? ==> r.value.mccMncs == Split(Split(entry, ';')[0], ',')
    ensures r.Some? ==> forall i :: 0 <= i < |r.value.mccMncs| ==> ',' !in r.value.mccMncs[i] && ';' !in r.value.mccMncs[i]
  {
    var parts := Split(entry, ';');
    if |parts| < 2 || !compiles(parts[1]) then None
    else
      var keys := Split(parts[0], ',');
      assert forall i :: 0 <= i < |keys| ==> ';' !in keys[i] by {
        JoinPieces(parts[0], ',');
        forall i | 0 <= i < |keys| ensures ';' !in keys[i] {
          NoCharInPieceOfSplit(parts[0], ',', ';', i);
        }
      }
      Some(CarrierEntry(keys, Pattern(parts[1])))
  }

  lemma NoCharInPieceOfSplit(s: string, sep: char, c: char, i: nat)
    requires c !in s && i < |Split(s, sep)|
    ensures c !in Split(s, sep)[i]
  {
    if sep in s {
      var p := Pieces(s, sep);
      JoinPieces(s, sep);
      NoCharInPiece(p, sep, c, i);
    }
  }

  lemma {:induction false} NoCharInPiece(p: seq<string>, sep: char, c: char, i: nat)
    requires |p| >= 1 && i < |p| && c !in Join(p, sep)
    ensures c !in p[i]
    decreases |p|
  {
    if |p| > 1 {
      if i > 0 {
        NoCharInPiece(p[1..], sep, c, i - 1);
      } else {
        assert Join(p, sep) == p[0] + [sep] + Join(p[1..], sep);
      }
    }
  }

  /** Writing an entry back in configuration form and parsing it restores
      it, for non-empty mccMncs and a non-empty regex that contains no
      separator. */
  lemma {:induction false} ParseEntryInvertsFormat(mccMncs: seq<string>, regex: string, compiles: string -> bool)
    requires |mccMncs| >= 1
    requires forall i :: 0 <= i < |mccMncs| ==> mccMncs[i] != "" && ',' !in mccMncs[i] && ';' !in mccMncs[i]
    requires regex != "" && ';' !in regex && compiles(regex)
    ensures ParseEntry(Join(mccMncs, ',') + [';'] + regex, compiles) == Some(CarrierEntry(mccMncs, Pattern(regex)))
  {
    var keys := Join(mccMncs, ',');
    SplitOfJoin(mccMncs, ',');
    assert ';' !in keys by {
      if ';' in keys {
        var j :| 0 <= j < |keys| && keys[j] == ';';
        CharInJoin(mccMncs, ',', j);
      }
    }
    SplitOfJoin([keys, regex], ';');
    assert Join([keys, regex], ';') == keys + [';'] + regex;
  }

  /** A character of a join is the separator or a character of a piece. */
  lemma {:induction false} CharInJoin(p: seq<string>, sep: char, j: nat)
    requires |p| >= 1 && j < |Join(p, sep)|
    ensures Join(p, sep)[j] == sep || exists i, k :: 0 <= i < |p| && 0 <= k < |p[i]| && p[i][k] == Join(p, sep)[j]
    decreases |p|
  {
    if |p| > 1 {
      var rest := Join(p[1..], sep);
      assert Join(p, sep) == p[0] + [sep] + rest;
      if j < |p[0]| {
        assert Join(p, sep)[j] == p[0][j];
      } else if j > |p[0]| {
        CharInJoin(p[1..], sep, j - |p[0]| - 1);
        if Join(p, sep)[j] != sep {
          var i, k :| 0 <= i < |p[1..]| && 0 <= k < |p[1..][i]| && p[1..][i][k] == rest[j - |p[0]| - 1];
          assert p[i + 1][k] == Join(p, sep)[j];
        }
      }
    }
  }

  /** The inner loop: append `p` to the list of each key, in order. */
  function AddToKeys(m: PatternMap, keys: seq<string>, p: Pattern): (r: PatternMap)
    decreases |keys|
  {
    if |keys| == 0 then m
    else AddToKeys(m[keys[0] := Lookup(m, keys[0]) + [p]], keys[1..], p)
  }

  /** Each key's list grows by one copy of `p` per listing of the key;
      nothing else changes, and no present key has an empty list. */
  lemma {:induction false} AddToKeysAppends(m: PatternMap, keys: seq<string>, p: Pattern, k: string)
    ensures Lookup(AddToKeys(m, keys, p), k) == Lookup(m, k) + Repeat(p, Count(keys, k))
    ensures k in AddToKeys(m, keys, p) <==> k in m || k in keys
    decreases |keys|
  {
    if |keys| > 0 {
      var m' := m[keys[0] := Lookup(m, keys[0]) + [p]];
      AddToKeysAppends(m', keys[1..], p, k);
      assert keys == [keys[0]] + keys[1..];
      if keys[0] == k {
        assert Repeat(p, Count(keys, k)) == [p] + Repeat(p, Count(keys[1..], k));
      }
    }
  }

  /** The entries that are parsed before the first one that throws. */
  function ParsablePrefix(config: seq<string>, compiles: string -> bool): (r: seq<CarrierEntry>)
    ensures |r| <= |config|
    ensures forall i :: 0 <= i < |r| ==> ParseEntry(config[i], compiles) == Some(r[i])
    ensures |r| < |config| ==> ParseEntry(config[|r|], compiles).None?
  {
    if |config| == 0 then []
    else match ParseEntry(config[0], compiles)
      case None => []
      case Some(e) => [e] + ParsablePrefix(config[1..], compiles)
  }

  /** The reference contents of one key: the patterns of the entries that
      list it, in entry order, once per listing. */
  function Expected(entries: seq<CarrierEntry>, k: string): seq<Pattern>
  {
    if |entries| == 0 then []
    else Repeat(entries[0].pattern, Count(entries[0].mccMncs, k)) + Expected(entries[1..], k)
  }

  datatype Built = Built(patterns: PatternMap, threw: bool)

  /** The outer loop over the configuration; stops at the first entry that
      throws, keeping what earlier entries added. */
  function AddEntries(m: PatternMap, config: seq<string>, compiles: string -> bool): Built
    decreases |config|
  {
    if |config| == 0 then Built(m, false)
    else match ParseEntry(config[0], compiles)
      case None => Built(m, true)
      case Some(e) => AddEntries(AddToKeys(m, e.mccMncs, e.pattern), config[1..], compiles)
  }

  lemma {:induction false} AddEntriesThrows(m: PatternMap, config: seq<string>, compiles: string -> bool)
    ensures AddEntries(m, config, compiles).threw <==> |ParsablePrefix(config, compiles)| < |config|
    decreases |config|
  {
    if |config| > 0 {
      match ParseEntry(config[0], compiles)
      case None =>
      case Some(e) =>
        AddEntriesThrows(AddToKeys(m, e.mccMncs, e.pattern), config[1..], compiles);
    }
  }

  lemma {:induction false} AddEntriesContents(m: PatternMap, config: seq<string>, compiles: string -> bool, k: string)
    ensures Lookup(AddEntries(m, config, compiles).patterns, k)
         == Lookup(m, k) + Expected(ParsablePrefix(config, compiles), k)
    ensures k in AddEntries(m, config, compiles).patterns <==> k in m || Expected(ParsablePrefix(config, compiles), k) != []
    decreases |config|
  {
    if |config| > 0 {
      match ParseEntry(config[0], compiles)
      case None =>
      case Some(e) =>
        var m' := AddToKeys(m, e.mccMncs, e.pattern);
        AddToKeysAppends(m, e.mccMncs, e.pattern, k);
        AddEntriesContents(m', config[1..], compiles, k);
        var rest := ParsablePrefix(config[1..], compiles);
        assert ParsablePrefix(config, compiles) == [e] + rest;
        assert ([e] + rest)[1..] == rest;
        assert Expected([e] + rest, k) == Repeat(e.pattern, Count(e.mccMncs, k)) + Expected(rest, k);
    }
  }

  /** The result of `buildPatternsMap`: the new `sPatterns` and whether
      the call threw. */
  datatype BuildResult = BuildResult(patterns: Option<PatternMap>, threw: bool)

  /** `buildPatternsMap`. A table that exists is kept as is. Otherwise the
      table is created before the loop, so an entry that throws leaves the
      table holding everything the entries before it added, and later calls
      keep that partial table. */
  function BuildPatternsMap(state: Option<PatternMap>, config: seq<string>, compiles: string -> bool): (r: BuildResult)
    ensures state.Some? ==> r == BuildResult(state, false)
    ensures r.patterns.Some?
  {
    if state.Some? then BuildResult(state, false)
    else
      var b := AddEntries(map[], config, compiles);
      BuildResult(Some(b.patterns), b.threw)
  }

  /** What a first build puts in the table: it throws exactly when some
      entry cannot be parsed, and each mccMnc's list holds the patterns of
      the entries before the first such entry that list it, in entry order,
      once per listing; an mccMnc is present only with a non-empty list. */
  lemma BuildPatternsMapContents(config: seq<string>, compiles: string -> bool, k: string)
    ensures var r := BuildPatternsMap(None, config, compiles);
      && (r.threw <==> exists i :: 0 <= i < |config| && ParseEntry(config[i], compiles).None?)
      && Lookup(r.patterns.value, k) == Expected(ParsablePrefix(config, compiles), k)
      && (k in r.patterns.value ==> r.patterns.value[k] != [])
  {
    AddEntriesThrows(map[], config, compiles);
    AddEntriesContents(map[], config, compiles, k);
    var pre := ParsablePrefix(config, compiles);
    var b := AddEntries(map[], config, compiles);
    assert BuildPatternsMap(None, config, compiles) == BuildResult(Some(b.patterns), b.threw);
    assert Lookup(map[], k) == [];
    if |pre| == |config| {
      assert forall i :: 0 <= i < |config| ==> ParseEntry(config[i], compiles).Some?;
    } else {
      assert ParseEntry(config[|pre|], compiles).None?;
    }
  }

  /** Two entries sharing a key: the shared key's list follows entry
      order, and the other key gets only its own entry's pattern. */
  lemma SharedKeyFollowsEntryOrder(k1: string, k2: string, r1: string, r2: string, compiles: string -> bool)
    requires k1 != k2
    requires k1 != "" && ',' !in k1 && ';' !in k1
    requires k2 != "" && ',' !in k2 && ';' !in k2
    requires r1 != "" && ';' !in r1 && compiles(r1)
    requires r2 != "" && ';' !in r2 && compiles(r2)
    ensures var r := BuildPatternsMap(None, [k1 + [','] + k2 + [';'] + r1, k1 + [';'] + r2], compiles);
      && !r.threw
      && Lookup(r.patterns.value, k1) == [Pattern(r1), Pattern(r2)]
      && Lookup(r.patterns.value, k2) == [Pattern(r1)]
  {
    var config := [k1 + [','] + k2 + [';'] + r1, k1 + [';'] + r2];
    TwoEntriesParse(k1, k2, r1, r2, compiles);
    TwoEntriesExpected(k1, k2, r1, r2);
    BuildPatternsMapContents(config, compiles, k1);
    BuildPatternsMapContents(config, compiles, k2);
  }

  lemma TwoEntriesParse(k1: string, k2: string, r1: string, r2: string, compiles: string -> bool)
    requires k1 != "" && ',' !in k1 && ';' !in k1
    requires k2 != "" && ',' !in k2 && ';' !in k2
    requires r1 != "" && ';' !in r1 && compiles(r1)
    requires r2 != "" && ';' !in r2 && compiles(r2)
    ensures ParsablePrefix([k1 + [','] + k2 + [';'] + r1, k1 + [';'] + r2], compiles)
         == [CarrierEntry([k1, k2], Pattern(r1)), CarrierEntry([k1], Pattern(r2))]
  {
    var e1, e2 := k1 + [','] + k2 + [';'] + r1, k1 + [';'] + r2;
    assert Join([k1, k2], ',') == k1 + [','] + k2 by {
      assert [k1, k2][1..] == [k2];
    }
    ParseEntryInvertsFormat([k1, k2], r1, compiles);
    ParseEntryInvertsFormat([k1], r2, compiles);
    var config := [e1, e2];
    assert config[1..] == [e2] && config[1..][1..] == [];
  }

  lemma TwoEntriesExpected(k1: string, k2: string, r1: string, r2: string)
    requires k1 != k2
    ensures var es := [CarrierEntry([k1, k2], Pattern(r1)), CarrierEntry([k1], Pattern(r2))];
      Expected(es, k1) == [Pattern(r1), Pattern(r2)] && Expected(es, k2) == [Pattern(r1)]
  {
    var c1, c2 := CarrierEntry([k1, k2], Pattern(r1)), CarrierEntry([k1], Pattern(r2));
    assert [c1, c2][1..] == [c2];
    assert [k1, k2][1..] == [k2];
    assert Count([k1, k2], k1) == 1 && Count([k1], k1) == 1;
    assert Count([k1, k2], k2) == 1 && Count([k1], k2) == 0;
    assert Repeat(Pattern(r1), 1) == [Pattern(r1)];
    assert Repeat(Pattern(r2), 1) == [Pattern(r2)];
    assert Expected([c2], k1) == [Pattern(r2)];
    assert Expected([c2], k2) == [];
  }
}
