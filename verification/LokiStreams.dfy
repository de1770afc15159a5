/**
  How a batch becomes Loki streams: the stream key of a line, which labels may
  be promoted into it, and the grouping of a batch by key. Decoding a line as
  JSON is a parameter: a function from the line to its string-valued fields,
  empty when the line does not parse.
 */
module LokiStreams {
  import opened Order
  import opened LokiProtocol

  type Fields = map<string, string>
  type Decoder = string -> Fields

  const ENVIRONMENT := "environment"
  const APPLICATION := "application"
  const HOST := "host"
  const VERSION := "version"
  const LEVEL := "level"
  const LEVEL_UNKNOWN := "unknown"

  datatype StreamKey = StreamKey(
    environment: string, application: string, host: string, version: string, level: string)

  datatype LabelPair = LabelPair(key: string, value: string)

  datatype Labels = Labels(environment: string, application: string, host: string, version: string)

  // ---------------------------------------------------------------------
  // The level of a line
  // ---------------------------------------------------------------------

  predicate OccursAt(s: string, sub: string, k: int) {
    0 <= k && k + |sub| <= |s| && s[k..k + |sub|] == sub
  }

  /** strings.Index from an offset: the first occurrence of sub, or -1. */
  function IndexFrom(s: string, sub: string, i: nat): (r: int)
    requires i <= |s|
    ensures r == -1 || (i <= r && OccursAt(s, sub, r))
    ensures forall k :: i <= k && OccursAt(s, sub, k) ==> r != -1 && r <= k
    decreases |s| - i
  {
    if i + |sub| > |s| then -1
    else if OccursAt(s, sub, i) then i
    else if i == |s| then -1
    else IndexFrom(s, sub, i + 1)
  }

  const LEVEL_PREFIX := "\"level\":\""

  /** A substring scan; absent, empty and unterminated levels become "unknown". */
  function ExtractLevel(line: string): (level: string)
    ensures level != ""
    ensures '"' !in level
  {
    var at := IndexFrom(line, LEVEL_PREFIX, 0);
    if at == -1 then LEVEL_UNKNOWN else
    var rest := line[at + |LEVEL_PREFIX|..];
    var end := IndexFrom(rest, "\"", 0);
    if end <= 0 then LEVEL_UNKNOWN else
    assert forall k :: 0 <= k < end ==> rest[k] != '"' by {
      forall k | 0 <= k < end ensures rest[k] != '"' {
        assert !OccursAt(rest, "\"", k);
      }
    }
    rest[..end]
  }

  /** v is the value of the first level field of the line: not empty, and closed by a quote. */
  ghost predicate LevelIn(line: string, pre: string, v: string, post: string) {
    && line == pre + "\"level\":\"" + v + "\"" + post
    && v != "" && '"' !in v
    && forall k :: 0 <= k < |pre| ==> !OccursAt(line, "\"level\":\"", k)
  }

  /** A line has the level its first level field gives; every other line has level "unknown". */
  lemma ExtractLevelIs(line: string)
    ensures forall pre, v, post :: LevelIn(line, pre, v, post) ==> ExtractLevel(line) == v
    ensures (forall pre, v, post :: !LevelIn(line, pre, v, post)) ==> ExtractLevel(line) == "unknown"
  {
    forall pre, v, post | LevelIn(line, pre, v, post) ensures ExtractLevel(line) == v {
      LevelIsExtracted(line, pre, v, post);
    }
    var at := IndexFrom(line, LEVEL_PREFIX, 0);
    if at != -1 {
      var rest := line[at + |LEVEL_PREFIX|..];
      var end := IndexFrom(rest, "\"", 0);
      if end > 0 {
        LevelWasThere(line, at, end);
      }
    }
  }

  lemma LevelIsExtracted(line: string, pre: string, v: string, post: string)
    requires LevelIn(line, pre, v, post)
    ensures ExtractLevel(line) == v
  {
    assert line[|pre|..][..|LEVEL_PREFIX|] == LEVEL_PREFIX;
    assert OccursAt(line, LEVEL_PREFIX, |pre|);
    assert IndexFrom(line, LEVEL_PREFIX, 0) == |pre|;
    var rest := line[|pre| + |LEVEL_PREFIX|..];
    assert rest == v + "\"" + post;
    assert rest[|v|..|v| + 1] == "\"";
    assert OccursAt(rest, "\"", |v|);
    forall k | 0 <= k < |v| ensures !OccursAt(rest, "\"", k) {
      assert rest[k] == v[k];
      assert rest[k..k + 1][0] == rest[k];
    }
    assert IndexFrom(rest, "\"", 0) == |v|;
  }

  lemma LevelWasThere(line: string, at: int, end: int)
    requires at >= 0 && at == IndexFrom(line, LEVEL_PREFIX, 0)
    requires OccursAt(line, LEVEL_PREFIX, at)
    requires end > 0 && end == IndexFrom(line[at + |LEVEL_PREFIX|..], "\"", 0)
    ensures exists pre, v, post :: LevelIn(line, pre, v, post)
  {
    var rest := line[at + |LEVEL_PREFIX|..];
    var pre, v, post := line[..at], rest[..end], rest[end + 1..];
    assert rest[end..end + 1] == "\"";
    assert line == pre + LEVEL_PREFIX + rest;
    assert rest == v + "\"" + post;
    forall k | 0 <= k < |v| ensures v[k] != '"' {
      assert !OccursAt(rest, "\"", k);
      assert rest[k..k + 1] == [rest[k]];
    }
    assert line == pre + LEVEL_PREFIX + v + "\"" + post;
    assert LevelIn(line, pre, v, post);
  }

  // ---------------------------------------------------------------------
  // Sanctioned labels
  // ---------------------------------------------------------------------

  function NonEmptyPairs(labels: Labels): set<LabelPair> {
    set p | p in {LabelPair(ENVIRONMENT, labels.environment), LabelPair(APPLICATION, labels.application),
                  LabelPair(HOST, labels.host), LabelPair(VERSION, labels.version)} && p.value != ""
  }

  lemma PairsOf(labels: Labels)
    ensures NonEmptyPairs(labels) ==
            (if labels.environment != "" then {LabelPair(ENVIRONMENT, labels.environment)} else {}) +
            (if labels.application != "" then {LabelPair(APPLICATION, labels.application)} else {}) +
            (if labels.host != "" then {LabelPair(HOST, labels.host)} else {}) +
            (if labels.version != "" then {LabelPair(VERSION, labels.version)} else {})
  {
  }

  /** Some recorded SanctionLabels call declared the pair. */
  ghost predicate DeclaredIn(p: LabelPair, history: seq<Labels>) {
    exists i :: 0 <= i < |history| && p in NonEmptyPairs(history[i])
  }

  lemma DeclaredExtends(p: LabelPair, history: seq<Labels>, labels: Labels)
    ensures DeclaredIn(p, history + [labels]) <==> DeclaredIn(p, history) || p in NonEmptyPairs(labels)
  {
    hide NonEmptyPairs;
    var longer := history + [labels];
    if DeclaredIn(p, history) {
      var i :| 0 <= i < |history| && p in NonEmptyPairs(history[i]);
      assert longer[i] == history[i];
    }
    assert longer[|history|] == labels;
  }

  class LabelStore {
    var sanctioned: set<LabelPair>
    ghost var history: seq<Labels>

    /** The set holds exactly the non-empty pairs declared so far. */
    ghost predicate Valid()
      reads this
    {
      forall p :: p in sanctioned <==> DeclaredIn(p, history)
    }

    constructor ()
      ensures Valid() && history == []
    {
      sanctioned, history := {}, [];
    }

    method SanctionLabels(labels: Labels)
      requires Valid()
      modifies this
      ensures Valid() && history == old(history) + [labels]
      ensures sanctioned == old(sanctioned) + NonEmptyPairs(labels)
    {
      Add(LabelPair(ENVIRONMENT, labels.environment));
      Add(LabelPair(APPLICATION, labels.application));
      Add(LabelPair(HOST, labels.host));
      Add(LabelPair(VERSION, labels.version));
      PairsOf(labels);
      hide NonEmptyPairs;
      assert sanctioned == old(sanctioned) + NonEmptyPairs(labels);
      forall p ensures DeclaredIn(p, history + [labels]) <==> DeclaredIn(p, history) || p in NonEmptyPairs(labels) {
        DeclaredExtends(p, history, labels);
      }
      hide DeclaredIn;
      history := history + [labels];
    }

    method Add(p: LabelPair)
      modifies this`sanctioned
      ensures sanctioned == if p.value != "" then old(sanctioned) + {p} else old(sanctioned)
    {
      if p.value != "" {
        sanctioned := sanctioned + {p};
      }
    }
  }

  function SanctionedField(fields: Fields, name: string, sanctioned: set<LabelPair>): (value: string)
    ensures value != "" ==> name in fields && fields[name] == value && LabelPair(name, value) in sanctioned
    ensures name in fields && LabelPair(name, fields[name]) in sanctioned ==> value == fields[name]
  {
    if name in fields && fields[name] != "" && LabelPair(name, fields[name]) in sanctioned
    then fields[name] else ""
  }

  function StreamKeyFromLine(line: string, decode: Decoder, sanctioned: set<LabelPair>): StreamKey {
    var fields := decode(line);
    StreamKey(SanctionedField(fields, ENVIRONMENT, sanctioned),
              SanctionedField(fields, APPLICATION, sanctioned),
              SanctionedField(fields, HOST, sanctioned),
              SanctionedField(fields, VERSION, sanctioned),
              ExtractLevel(line))
  }

  // ---------------------------------------------------------------------
  // The label map of a key
  // ---------------------------------------------------------------------

  function Put(m: Fields, name: string, value: string): Fields {
    if value == "" then m else m[name := value]
  }

  function StreamMap(key: StreamKey): Fields {
    Put(Put(Put(Put(Put(map[], ENVIRONMENT, key.environment), APPLICATION, key.application),
                HOST, key.host), VERSION, key.version), LEVEL, key.level)
  }

  /** Reading a label back: absence stands for the empty value. */
  function Get(m: Fields, name: string): string {
    if name in m then m[name] else ""
  }

  lemma StreamMapReads(key: StreamKey)
    ensures var m := StreamMap(key);
            && Get(m, ENVIRONMENT) == key.environment && Get(m, APPLICATION) == key.application
            && Get(m, HOST) == key.host && Get(m, VERSION) == key.version && Get(m, LEVEL) == key.level
            && (forall n :: n in m ==> m[n] != "" && n in [ENVIRONMENT, APPLICATION, HOST, VERSION, LEVEL])
  {
    assert ENVIRONMENT[0] == 'e' && APPLICATION[0] == 'a' && HOST[0] == 'h' && VERSION[0] == 'v' && LEVEL[0] == 'l';
  }

  /** Different keys never share a Loki stream. */
  lemma StreamMapInjective(a: StreamKey, b: StreamKey)
    ensures StreamMap(a) == StreamMap(b) <==> a == b
  {
    StreamMapReads(a);
    StreamMapReads(b);
  }

  /** The names under which a line's fields can become labels, besides its level. */
  predicate IsLabelName(n: string) {
    n == "environment" || n == "application" || n == "host" || n == "version"
  }

  /**
    The labels of a line's stream, exactly: its level, and those of its
    environment, application, host and version fields whose pair is sanctioned,
    each under its own name.
   */
  lemma LabelsOfLine(line: string, decode: Decoder, sanctioned: set<LabelPair>)
    ensures var m := StreamMap(StreamKeyFromLine(line, decode, sanctioned));
            && "level" in m && m["level"] == ExtractLevel(line)
            && forall n :: n != "level" ==>
                 (n in m <==>
                    && IsLabelName(n) && n in decode(line) && decode(line)[n] != ""
                    && LabelPair(n, decode(line)[n]) in sanctioned)
                 && (n in m ==> m[n] == decode(line)[n])
  {
    var key := StreamKeyFromLine(line, decode, sanctioned);
    StreamMapReads(key);
    LabelNamesDiffer();
    hide StreamMap, ExtractLevel;
  }

  lemma LabelNamesDiffer()
    ensures ENVIRONMENT == "environment" && APPLICATION == "application" && HOST == "host"
    ensures VERSION == "version" && LEVEL == "level" && !IsLabelName("level")
    ensures ENVIRONMENT != APPLICATION && ENVIRONMENT != HOST && ENVIRONMENT != VERSION
    ensures APPLICATION != HOST && APPLICATION != VERSION && HOST != VERSION
  {
    assert ENVIRONMENT[0] == 'e' && APPLICATION[0] == 'a' && HOST[0] == 'h' && VERSION[0] == 'v' && LEVEL[0] == 'l';
  }

  /** Every label a line can reach a stream with, other than its level, was declared. */
  lemma PromotedLabelsWereSanctioned(line: string, decode: Decoder, sanctioned: set<LabelPair>, history: seq<Labels>)
    requires forall p :: p in sanctioned ==> DeclaredIn(p, history)
    ensures var m := StreamMap(StreamKeyFromLine(line, decode, sanctioned));
            && LEVEL in m && m[LEVEL] == ExtractLevel(line)
            && forall n :: n in m && n != LEVEL ==> DeclaredIn(LabelPair(n, m[n]), history)
  {
    var key := StreamKeyFromLine(line, decode, sanctioned);
    var m := StreamMap(key);
    StreamMapReads(key);
    forall n | n in m && n != LEVEL ensures DeclaredIn(LabelPair(n, m[n]), history) {
      assert LabelPair(n, m[n]) in sanctioned;
    }
  }

  // ---------------------------------------------------------------------
  // The order of keys
  // ---------------------------------------------------------------------

  predicate KeyLess(a: StreamKey, b: StreamKey) {
    if a.environment != b.environment then StringLess(a.environment, b.environment)
    else if a.application != b.application then StringLess(a.application, b.application)
    else if a.host != b.host then StringLess(a.host, b.host)
    else if a.version != b.version then StringLess(a.version, b.version)
    else StringLess(a.level, b.level)
  }

  /** Environment first, then application, host, version and level. */
  lemma KeyLessIff(a: StreamKey, b: StreamKey)
    ensures KeyLess(a, b) <==>
            FieldsLess([a.environment, a.application, a.host, a.version, a.level],
                       [b.environment, b.application, b.host, b.version, b.level])
  {
    hide StringLess;
    var x := [a.environment, a.application, a.host, a.version, a.level];
    var y := [b.environment, b.application, b.host, b.version, b.level];
    StringLessIrreflexive(a.environment);
    StringLessIrreflexive(a.application);
    StringLessIrreflexive(a.host);
    StringLessIrreflexive(a.version);
    assert KeyLess(a, b) <==>
           (LessAtField(x, y, 0) || LessAtField(x, y, 1) || LessAtField(x, y, 2) || LessAtField(x, y, 3) ||
            LessAtField(x, y, 4));
    forall k: nat | LessAtField(x, y, k) ensures k == 0 || k == 1 || k == 2 || k == 3 || k == 4 {
    }
  }

  lemma KeyLessIsStrictTotal()
    ensures StrictTotal(KeyLess)
  {
    hide KeyLess;
    forall a ensures !KeyLess(a, a) {
      KeyOrder(a, a, a);
    }
    forall a, b ensures KeyLess(a, b) || KeyLess(b, a) || a == b {
      KeyOrder(a, b, b);
    }
    forall a, b, c | KeyLess(a, b) && KeyLess(b, c) ensures KeyLess(a, c) {
      KeyOrder(a, b, c);
    }
  }

  lemma KeyOrder(a: StreamKey, b: StreamKey, c: StreamKey)
    ensures !KeyLess(a, a)
    ensures KeyLess(a, b) || KeyLess(b, a) || a == b
    ensures KeyLess(a, b) && KeyLess(b, c) ==> KeyLess(a, c)
  {
    hide StringLess;
    StringOrder(a.environment, b.environment, c.environment);
    StringOrder(a.application, b.application, c.application);
    StringOrder(a.host, b.host, c.host);
    StringOrder(a.version, b.version, c.version);
    StringOrder(a.level, b.level, c.level);
  }

  // ---------------------------------------------------------------------
  // Grouping
  // ---------------------------------------------------------------------

  datatype Stream = Stream(labels: Fields, values: seq<Entry>)

  /** The entries filed under k, in arrival order. */
  function Select(keys: seq<StreamKey>, batch: seq<Entry>, k: StreamKey): seq<Entry>
    requires |keys| == |batch|
  {
    if keys == [] then [] else
    var n := |keys| - 1;
    var before := Select(keys[..n], batch[..n], k);
    if keys[n] == k then before + [batch[n]] else before
  }

  /** The keys of a batch, each once. */
  function Unique(keys: seq<StreamKey>): seq<StreamKey> {
    if keys == [] then [] else
    var n := |keys| - 1;
    if keys[n] in keys[..n] then Unique(keys[..n]) else Unique(keys[..n]) + [keys[n]]
  }

  lemma {:induction false} UniqueKeeps(keys: seq<StreamKey>)
    ensures Distinct(Unique(keys))
    ensures forall k :: k in Unique(keys) <==> k in keys
    decreases |keys|
  {
    if keys != [] {
      var n := |keys| - 1;
      UniqueKeeps(keys[..n]);
      assert keys == keys[..n] + [keys[n]];
    }
  }

  function StreamKeys(keys: seq<StreamKey>): seq<StreamKey> {
    Sort(Unique(keys), KeyLess)
  }

  lemma StreamKeysIncrease(keys: seq<StreamKey>)
    ensures Increasing(StreamKeys(keys), KeyLess)
    ensures forall k :: k in StreamKeys(keys) <==> k in keys
  {
    KeyLessIsStrictTotal();
    UniqueKeeps(keys);
    SortIncreases(Unique(keys), KeyLess);
  }

  /** The push body: one stream per key, in key order. */
  function StreamsOf(keys: seq<StreamKey>, batch: seq<Entry>): seq<Stream>
    requires |keys| == |batch|
  {
    var ks := StreamKeys(keys);
    seq(|ks|, i requires 0 <= i < |ks| => Stream(StreamMap(ks[i]), Select(keys, batch, ks[i])))
  }

  /** The first loop of postBatch: append each entry under its key. */
  method GroupByKey(keys: seq<StreamKey>, batch: seq<Entry>) returns (byStream: map<StreamKey, seq<Entry>>)
    requires |keys| == |batch|
    ensures forall k :: k in byStream <==> k in keys
    ensures forall k :: k in byStream ==> byStream[k] == Select(keys, batch, k)
  {
    byStream := map[];
    for i := 0 to |batch|
      invariant forall k :: k in byStream <==> k in keys[..i]
      invariant forall k :: k in byStream ==> byStream[k] == Select(keys[..i], batch[..i], k)
    {
      SelectAppend(keys, batch, i);
      assert keys[..i + 1] == keys[..i] + [keys[i]];
      var soFar := if keys[i] in byStream then byStream[keys[i]] else [];
      hide Select;
      byStream := byStream[keys[i] := soFar + [batch[i]]];
    }
    assert keys[..|batch|] == keys && batch[..|batch|] == batch;
  }

  lemma SelectAppend(keys: seq<StreamKey>, batch: seq<Entry>, i: nat)
    requires |keys| == |batch| && i < |keys|
    ensures forall k :: Select(keys[..i + 1], batch[..i + 1], k) ==
                        Select(keys[..i], batch[..i], k) + (if keys[i] == k then [batch[i]] else [])
    ensures keys[i] !in keys[..i] ==> Select(keys[..i], batch[..i], keys[i]) == []
  {
    assert keys[..i + 1][..i] == keys[..i] && batch[..i + 1][..i] == batch[..i];
    if keys[i] !in keys[..i] {
      SelectAbsent(keys[..i], batch[..i], keys[i]);
    }
  }

  lemma {:induction false} SelectAbsent(keys: seq<StreamKey>, batch: seq<Entry>, k: StreamKey)
    requires |keys| == |batch| && k !in keys
    ensures Select(keys, batch, k) == []
    decreases |keys|
  {
    if keys != [] {
      SelectAbsent(keys[..|keys| - 1], batch[..|keys| - 1], k);
    }
  }

  /**
    The grouping of postBatch. keys[i] is the stream key of batch[i], computed
    under the labels sanctioned when that line was read. Whatever order the map
    is visited in, sorting makes the push body one function of the batch.
   */
  method GroupBatch(keys: seq<StreamKey>, batch: seq<Entry>) returns (streams: seq<Stream>)
    requires |keys| == |batch|
    ensures streams == StreamsOf(keys, batch)
  {
    var byStream := GroupByKey(keys, batch);
    var order := Order.Enumerate(byStream.Keys);
    var sorted := Sort(order, KeyLess);
    KeyLessIsStrictTotal();
    SortIncreases(order, KeyLess);
    StreamKeysIncrease(keys);
    SortedUnique(sorted, StreamKeys(keys), KeyLess);
    hide KeyLess, Select, StreamMap, StreamKeys, Sort;
    streams := EmitStreams(sorted, keys, batch, byStream);
  }

  /** The second loop of postBatch: one stream per key, in sorted order. */
  method EmitStreams(sorted: seq<StreamKey>, ghost keys: seq<StreamKey>, ghost batch: seq<Entry>,
                     byStream: map<StreamKey, seq<Entry>>)
    returns (streams: seq<Stream>)
    requires |keys| == |batch| && sorted == StreamKeys(keys)
    requires forall k :: k in sorted ==> k in byStream && byStream[k] == Select(keys, batch, k)
    ensures streams == StreamsOf(keys, batch)
  {
    hide Select, StreamMap, StreamKeys;
    streams := [];
    for i := 0 to |sorted|
      invariant streams == StreamsOf(keys, batch)[..i]
    {
      assert sorted[i] in sorted;
      streams := streams + [Stream(StreamMap(sorted[i]), byStream[sorted[i]])];
    }
  }

  /** The entries of all streams, stream after stream. */
  function Regroup(ks: seq<StreamKey>, keys: seq<StreamKey>, batch: seq<Entry>): seq<Entry>
    requires |keys| == |batch|
    decreases |ks|
  {
    if ks == [] then [] else Select(keys, batch, ks[0]) + Regroup(ks[1..], keys, batch)
  }

  lemma {:induction false} RegroupLast(ks: seq<StreamKey>, keys: seq<StreamKey>, batch: seq<Entry>)
    requires |keys| == |batch| > 0 && Distinct(ks)
    ensures var n := |keys| - 1;
            multiset(Regroup(ks, keys, batch)) ==
            multiset(Regroup(ks, keys[..n], batch[..n])) +
            (if keys[n] in ks then multiset{batch[n]} else multiset{})
    decreases |ks|
  {
    if ks != [] {
      RegroupLast(ks[1..], keys, batch);
      assert ks == [ks[0]] + ks[1..];
    }
  }

  /** No entry is lost or duplicated by the grouping. */
  lemma {:induction false} GroupingConserves(ks: seq<StreamKey>, keys: seq<StreamKey>, batch: seq<Entry>)
    requires |keys| == |batch| && Distinct(ks)
    requires forall k :: k in keys ==> k in ks
    ensures multiset(Regroup(ks, keys, batch)) == multiset(batch)
    decreases |batch|
  {
    if batch == [] {
      RegroupEmpty(ks);
    } else {
      var n := |keys| - 1;
      RegroupLast(ks, keys, batch);
      GroupingConserves(ks, keys[..n], batch[..n]);
      assert batch == batch[..n] + [batch[n]];
    }
  }

  lemma RegroupEmpty(ks: seq<StreamKey>)
    ensures Regroup(ks, [], []) == []
    decreases |ks|
  {
    if ks != [] {
      RegroupEmpty(ks[1..]);
    }
  }

  /** Positions of the entries filed under k, increasing. */
  lemma {:induction false} SelectKeepsOrder(keys: seq<StreamKey>, batch: seq<Entry>, k: StreamKey)
    returns (at: seq<nat>)
    requires |keys| == |batch|
    ensures |at| == |Select(keys, batch, k)|
    ensures forall i :: 0 <= i < |at| ==>
              at[i] < |batch| && keys[at[i]] == k && batch[at[i]] == Select(keys, batch, k)[i]
    ensures forall i, j :: 0 <= i < j < |at| ==> at[i] < at[j]
    ensures forall p :: 0 <= p < |keys| && keys[p] == k ==> p in at
    decreases |keys|
  {
    if keys == [] {
      at := [];
    } else {
      var n := |keys| - 1;
      at := SelectKeepsOrder(keys[..n], batch[..n], k);
      if keys[n] == k {
        at := at + [n];
      }
    }
  }

  /**
    What postBatch sends: the streams partition the batch, every stream holds
    exactly the entries of its key in arrival order, keys strictly increase, and
    no two streams have the same label map.
   */
  lemma StreamsPartitionTheBatch(keys: seq<StreamKey>, batch: seq<Entry>)
    requires |keys| == |batch|
    ensures var ks, streams := StreamKeys(keys), StreamsOf(keys, batch);
            && |streams| == |ks| && Increasing(ks, KeyLess)
            && multiset(Regroup(ks, keys, batch)) == multiset(batch)
            && (forall i :: 0 <= i < |ks| ==> streams[i] == Stream(StreamMap(ks[i]), Select(keys, batch, ks[i])))
            && (forall i, j :: 0 <= i < j < |ks| ==> streams[i].labels != streams[j].labels)
  {
    var ks := StreamKeys(keys);
    StreamKeysIncrease(keys);
    KeyLessIsStrictTotal();
    assert Distinct(ks);
    GroupingConserves(ks, keys, batch);
    forall i, j | 0 <= i < j < |ks| ensures StreamMap(ks[i]) != StreamMap(ks[j]) {
      StreamMapInjective(ks[i], ks[j]);
    }
  }

  /**
    Over a whole push: each line keyed under the labels sanctioned when it was
    read, every stream carries a level and no label that was never declared.
   */
  lemma StreamLabelsWereSanctioned(
    batch: seq<Entry>, keys: seq<StreamKey>, decode: Decoder, snapshots: seq<set<LabelPair>>, history: seq<Labels>)
    requires |keys| == |batch| == |snapshots|
    requires forall i :: 0 <= i < |batch| ==> keys[i] == StreamKeyFromLine(batch[i].line, decode, snapshots[i])
    requires forall i, p :: 0 <= i < |batch| && p in snapshots[i] ==> DeclaredIn(p, history)
    ensures forall s :: s in StreamsOf(keys, batch) ==>
              && LEVEL in s.labels
              && forall n :: n in s.labels && n != LEVEL ==> DeclaredIn(LabelPair(n, s.labels[n]), history)
  {
    hide DeclaredIn;
    hide Select;
    hide StreamMap;
    hide StreamKeyFromLine;
    hide StreamKeys;
    var ks := StreamKeys(keys);
    StreamKeysIncrease(keys);
    hide Increasing;
    forall i | 0 <= i < |ks|
      ensures var m := StreamMap(ks[i]);
              LEVEL in m && forall n :: n in m && n != LEVEL ==> DeclaredIn(LabelPair(n, m[n]), history)
    {
      assert ks[i] in ks && ks[i] in keys;
      var j :| 0 <= j < |keys| && keys[j] == ks[i];
      PromotedLabelsWereSanctioned(batch[j].line, decode, snapshots[j], history);
    }
  }
}
