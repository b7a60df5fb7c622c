/** The one-line completion record, and the reader that recovers every field from its text. */
module CompletionRecord {
  import opened Integers
  import opened Options
  import opened SourceRoots
  import Json

  datatype Completion = Completion(
    chainId: string,
    source: Identity,
    roots: seq<Identity>,
    sink: Identity,
    latency: uint64,
    lineage: seq<string>,
    status: string,
    dropCount: uint32,
    errorCount: uint64,
    overflowCount: uint64)

  // ---------- The record as a JSON value ----------

  function RootTree(r: Identity): Json.Value {
    Json.Record([Json.Field("source_node", Json.Text(r.nodeName)),
                 Json.Field("source_sequence", Json.Number(r.sequence)),
                 Json.Field("source_timestamp_ns", Json.Number(r.timestamp))])
  }

  function RootTrees(roots: seq<Identity>): seq<Json.Value> {
    seq(|roots|, i requires 0 <= i < |roots| => RootTree(roots[i]))
  }

  function NameTrees(names: seq<string>): seq<Json.Value> {
    seq(|names|, i requires 0 <= i < |names| => Json.Text(names[i]))
  }

  /** The fields after the leading schema version. */
  function Body(c: Completion): seq<Json.Field> {
    [Json.Field("record_type", Json.Text("completion")),
     Json.Field("chain_id", Json.Text(c.chainId)),
     Json.Field("source_node", Json.Text(c.source.nodeName)),
     Json.Field("source_sequence", Json.Number(c.source.sequence)),
     Json.Field("source_timestamp_ns", Json.Number(c.source.timestamp)),
     Json.Field("contributing_source_roots", Json.List(RootTrees(c.roots))),
     Json.Field("sink_node", Json.Text(c.sink.nodeName)),
     Json.Field("sink_sequence", Json.Number(c.sink.sequence)),
     Json.Field("sink_timestamp_ns", Json.Number(c.sink.timestamp)),
     Json.Field("latency_ns", Json.Number(c.latency)),
     Json.Field("lineage", Json.List(NameTrees(c.lineage))),
     Json.Field("status", Json.Text(c.status)),
     Json.Field("drop_count", Json.Number(c.dropCount)),
     Json.Field("instrumentation_error_count", Json.Number(c.errorCount)),
     Json.Field("metadata_overflow_count", Json.Number(c.overflowCount))]
  }

  const SCHEMA: Json.Field := Json.Field("schema_version", Json.Number(2))

  function Tree(c: Completion): Json.Value {
    Json.Record([SCHEMA] + Body(c))
  }

  // ---------- Reading the record ----------

  function TextIn(fields: seq<Json.Field>, key: string): Option<string> {
    match ValueIn(fields, key)
    case Some(Text(s)) => Some(s)
    case _ => None
  }

  function NumberIn(fields: seq<Json.Field>, key: string, limit: nat): (r: Option<nat>)
    ensures r.Some? ==> r.value <= limit
  {
    match ValueIn(fields, key)
    case Some(Number(n)) => if n <= limit then Some(n) else None
    case _ => None
  }

  function ListIn(fields: seq<Json.Field>, key: string): Option<seq<Json.Value>> {
    match ValueIn(fields, key)
    case Some(List(items)) => Some(items)
    case _ => None
  }

  /** The value of the first field with the key. */
  function ValueIn(fields: seq<Json.Field>, key: string): Option<Json.Value> {
    if fields == [] then None
    else if fields[0].key == key then Some(fields[0].value)
    else ValueIn(fields[1..], key)
  }

  function ReadIdentity(fields: seq<Json.Field>, node: string, sequence: string, timestamp: string): Option<Identity> {
    match (TextIn(fields, node), NumberIn(fields, sequence, UINT32_MAX), NumberIn(fields, timestamp, UINT64_MAX))
    case (Some(n), Some(s), Some(t)) => Some(Identity(n, s, t))
    case _ => None
  }

  function ReadRoots(items: seq<Json.Value>): Option<seq<Identity>> {
    if items == [] then Some([])
    else if !items[0].Record? then None
    else
      match (ReadIdentity(items[0].fields, "source_node", "source_sequence", "source_timestamp_ns"), ReadRoots(items[1..]))
      case (Some(r), Some(rs)) => Some([r] + rs)
      case _ => None
  }

  function ReadNames(items: seq<Json.Value>): Option<seq<string>> {
    if items == [] then Some([])
    else match (items[0], ReadNames(items[1..]))
      case (Text(s), Some(ss)) => Some([s] + ss)
      case _ => None
  }

  function ReadRootsIn(fields: seq<Json.Field>): Option<seq<Identity>> {
    match ListIn(fields, "contributing_source_roots") case Some(items) => ReadRoots(items) case None => None
  }

  function ReadNamesIn(fields: seq<Json.Field>): Option<seq<string>> {
    match ListIn(fields, "lineage") case Some(items) => ReadNames(items) case None => None
  }

  /** Finds every field by its key, whatever the order and whatever else the record holds. */
  function ReadFields(fields: seq<Json.Field>): Option<Completion> {
    match (TextIn(fields, "chain_id"),
           ReadIdentity(fields, "source_node", "source_sequence", "source_timestamp_ns"),
           ReadRootsIn(fields),
           ReadIdentity(fields, "sink_node", "sink_sequence", "sink_timestamp_ns"),
           NumberIn(fields, "latency_ns", UINT64_MAX),
           ReadNamesIn(fields),
           TextIn(fields, "status"),
           NumberIn(fields, "drop_count", UINT32_MAX),
           NumberIn(fields, "instrumentation_error_count", UINT64_MAX),
           NumberIn(fields, "metadata_overflow_count", UINT64_MAX))
    case (Some(a), Some(b), Some(c), Some(d), Some(e), Some(f), Some(g), Some(h), Some(i), Some(j)) =>
      Some(Completion(a, b, c, d, e, f, g, h, i, j))
    case _ => None
  }

  /** Reads one line of text as a completion record. */
  function ReadRecord(line: string): Option<Completion> {
    match Json.ReadValue(line)
    case Got(Record(fields), "\n") =>
      if ValueIn(fields, "schema_version") == Some(Json.Number(2)) && TextIn(fields, "record_type") == Some("completion")
      then ReadFields(fields) else None
    case _ => None
  }

  // ---------- The reader recovers every field ----------

  lemma {:induction false} ValueAt(fields: seq<Json.Field>, i: nat)
    requires i < |fields|
    requires forall j :: 0 <= j < i ==> fields[j].key != fields[i].key
    ensures ValueIn(fields, fields[i].key) == Some(fields[i].value)
  {
    if i > 0 {
      ValueAt(fields[1..], i - 1);
    }
  }

  lemma KeysDiffer(c: Completion, i: nat, j: nat)
    requires i < j < 16
    ensures Tree(c).fields[i].key != Tree(c).fields[j].key
  {
  }

  lemma FieldAt(c: Completion, i: nat)
    requires i < 16
    ensures ValueIn(Tree(c).fields, Tree(c).fields[i].key) == Some(Tree(c).fields[i].value)
  {
    forall j | 0 <= j < i ensures Tree(c).fields[j].key != Tree(c).fields[i].key {
      KeysDiffer(c, j, i);
    }
    ValueAt(Tree(c).fields, i);
  }

  lemma RootReadsBack(r: Identity)
    ensures ReadIdentity(RootTree(r).fields, "source_node", "source_sequence", "source_timestamp_ns") == Some(r)
  {
    var fields := RootTree(r).fields;
    ValueAt(fields, 0);
    ValueAt(fields, 1);
    ValueAt(fields, 2);
  }

  lemma {:induction false} RootsReadBack(roots: seq<Identity>)
    ensures ReadRoots(RootTrees(roots)) == Some(roots)
  {
    if roots != [] {
      RootReadsBack(roots[0]);
      RootsReadBack(roots[1..]);
      assert RootTrees(roots)[1..] == RootTrees(roots[1..]);
      assert roots == [roots[0]] + roots[1..];
    }
  }

  lemma {:induction false} NamesReadBack(names: seq<string>)
    ensures ReadNames(NameTrees(names)) == Some(names)
  {
    if names != [] {
      NamesReadBack(names[1..]);
      assert NameTrees(names)[1..] == NameTrees(names[1..]);
      assert names == [names[0]] + names[1..];
    }
  }

  lemma IdentitiesReadBack(c: Completion)
    ensures ReadIdentity(Tree(c).fields, "source_node", "source_sequence", "source_timestamp_ns") == Some(c.source)
    ensures ReadIdentity(Tree(c).fields, "sink_node", "sink_sequence", "sink_timestamp_ns") == Some(c.sink)
  {
    FieldAt(c, 3);
    FieldAt(c, 4);
    FieldAt(c, 5);
    FieldAt(c, 7);
    FieldAt(c, 8);
    FieldAt(c, 9);
  }

  lemma ListsReadBack(c: Completion)
    ensures ReadRootsIn(Tree(c).fields) == Some(c.roots)
    ensures ReadNamesIn(Tree(c).fields) == Some(c.lineage)
  {
    FieldAt(c, 6);
    FieldAt(c, 11);
    RootsReadBack(c.roots);
    NamesReadBack(c.lineage);
  }

  lemma ScalarsReadBack(c: Completion)
    ensures ValueIn(Tree(c).fields, "schema_version") == Some(Json.Number(2))
    ensures TextIn(Tree(c).fields, "record_type") == Some("completion")
    ensures TextIn(Tree(c).fields, "chain_id") == Some(c.chainId)
    ensures NumberIn(Tree(c).fields, "latency_ns", UINT64_MAX) == Some(c.latency)
    ensures TextIn(Tree(c).fields, "status") == Some(c.status)
    ensures NumberIn(Tree(c).fields, "drop_count", UINT32_MAX) == Some(c.dropCount)
    ensures NumberIn(Tree(c).fields, "instrumentation_error_count", UINT64_MAX) == Some(c.errorCount)
    ensures NumberIn(Tree(c).fields, "metadata_overflow_count", UINT64_MAX) == Some(c.overflowCount)
  {
    FieldAt(c, 0);
    FieldAt(c, 1);
    FieldAt(c, 2);
    FieldAt(c, 10);
    FieldAt(c, 12);
    FieldAt(c, 13);
    FieldAt(c, 14);
    FieldAt(c, 15);
  }

  /** The line that renders a record reads back as that record. */
  lemma RecordReadsBack(c: Completion)
    ensures ReadRecord(Json.RenderOnto(Tree(c), "\n")) == Some(c)
  {
    Json.ReadsBack(Tree(c), "\n");
    IdentitiesReadBack(c);
    ListsReadBack(c);
    ScalarsReadBack(c);
  }

  // ---------- The keys, in the order in which they are written ----------

  function Keys(fields: seq<Json.Field>): seq<string> {
    seq(|fields|, i requires 0 <= i < |fields| => fields[i].key)
  }

  const KEYS: seq<string> :=
    ["schema_version", "record_type", "chain_id", "source_node", "source_sequence", "source_timestamp_ns",
     "contributing_source_roots", "sink_node", "sink_sequence", "sink_timestamp_ns", "latency_ns", "lineage", "status",
     "drop_count", "instrumentation_error_count", "metadata_overflow_count"]

  const ROOT_KEYS: seq<string> := ["source_node", "source_sequence", "source_timestamp_ns"]

  /** The line is one record with the keys in their order, and so is every root. */
  ghost predicate HasLayout(line: string) {
    match Json.ReadValue(line)
    case Got(Record(fields), rest) => rest == "\n" && Keys(fields) == KEYS && RootsHaveLayout(fields[6].value)
    case _ => false
  }

  ghost predicate RootsHaveLayout(roots: Json.Value) {
    roots.List? && forall i :: 0 <= i < |roots.items| ==> roots.items[i].Record? && Keys(roots.items[i].fields) == ROOT_KEYS
  }

  lemma TreeKeyAt(c: Completion, i: nat)
    requires i < 16
    ensures Tree(c).fields[i].key == KEYS[i]
  {
  }

  lemma TreeKeys(c: Completion)
    ensures Keys(Tree(c).fields) == KEYS
  {
    var keys := Keys(Tree(c).fields);
    forall i | 0 <= i < 16 ensures keys[i] == KEYS[i] {
      TreeKeyAt(c, i);
    }
  }

  lemma RootKeys(roots: seq<Identity>)
    ensures RootsHaveLayout(Json.List(RootTrees(roots)))
  {
  }

  lemma RecordHasLayout(c: Completion)
    ensures HasLayout(Json.RenderOnto(Tree(c), "\n"))
  {
    Json.ReadsBack(Tree(c), "\n");
    TreeKeys(c);
    RootKeys(c.roots);
    assert Tree(c).fields[6].value == Json.List(RootTrees(c.roots));
  }

  // ---------- Writing the record ----------

  /** The names in the order of their first appearance. */
  function FirstAppearances(names: seq<string>): seq<string> {
    if names == [] then [] else
    var front, last := FirstAppearances(names[..|names| - 1]), names[|names| - 1];
    if last in front then front else front + [last]
  }

  lemma {:induction false} FirstAppearancesAreDistinct(names: seq<string>)
    ensures forall n :: n in FirstAppearances(names) <==> n in names
    ensures forall i, j :: 0 <= i < j < |FirstAppearances(names)| ==> FirstAppearances(names)[i] != FirstAppearances(names)[j]
    ensures forall i, k :: 0 <= i < |FirstAppearances(names)| && 0 <= k < |names| && names[k] == FirstAppearances(names)[i] ==>
              forall h :: 0 <= h < i ==> FirstAppearances(names)[h] in names[..k]
  {
    if names != [] {
      var m := |names| - 1;
      var front, last := names[..m], names[m];
      FirstAppearancesAreDistinct(front);
      assert names == front + [last];
      forall i, k | 0 <= i < |FirstAppearances(names)| && 0 <= k < |names| && names[k] == FirstAppearances(names)[i]
        ensures forall h :: 0 <= h < i ==> FirstAppearances(names)[h] in names[..k]
      {
        if k < m {
          assert front[k] == names[k] && front[..k] == names[..k];
        } else {
          assert names[..k] == front;
        }
      }
    }
  }

  lemma PlainSourceKeys()
    ensures Json.NeedsNoEscape("schema_version") && Json.NeedsNoEscape("record_type") && Json.NeedsNoEscape("chain_id")
    ensures Json.NeedsNoEscape("source_node") && Json.NeedsNoEscape("source_sequence")
    ensures Json.NeedsNoEscape("source_timestamp_ns")
  {
  }

  lemma PlainSinkKeys()
    ensures Json.NeedsNoEscape("contributing_source_roots") && Json.NeedsNoEscape("sink_node")
    ensures Json.NeedsNoEscape("sink_sequence") && Json.NeedsNoEscape("sink_timestamp_ns")
    ensures Json.NeedsNoEscape("latency_ns") && Json.NeedsNoEscape("lineage")
  {
  }

  lemma PlainStatusKeys()
    ensures Json.NeedsNoEscape("status") && Json.NeedsNoEscape("drop_count")
    ensures Json.NeedsNoEscape("instrumentation_error_count") && Json.NeedsNoEscape("metadata_overflow_count")
  {
  }

  lemma PlainKeys(c: Completion)
    ensures forall i :: 0 <= i < 16 ==> Json.NeedsNoEscape(Tree(c).fields[i].key)
  {
    PlainSourceKeys();
    PlainSinkKeys();
    PlainStatusKeys();
  }

  /** A field as it is written: its quoted name, a colon and its value. */
  function FieldText(f: Json.Field): string {
    "\"" + f.key + "\"" + (":" + Json.RenderOnto(f.value, ""))
  }

  lemma PlainField(f: Json.Field)
    requires Json.NeedsNoEscape(f.key)
    ensures Json.FieldOnto(f, "") == FieldText(f)
  {
    Json.FieldSplits(f, "");
    Json.PlainTextStays(f.key);
  }

  lemma FieldsGrow(fields: seq<Json.Field>, k: nat)
    requires 0 < k < |fields| && Json.NeedsNoEscape(fields[k].key)
    ensures Json.FieldsOnto(fields[..k + 1], "") == Json.FieldsOnto(fields[..k], "") + ("," + FieldText(fields[k]))
  {
    var f := fields[k];
    assert fields[..k + 1] == fields[..k] + [f];
    Json.FieldsAppend(fields[..k], f, "");
    PlainField(f);
    Json.FieldsSplit(fields[..k], "," + FieldText(f));
  }

  lemma CloseRecord(fields: seq<Json.Field>)
    ensures "{" + Json.FieldsOnto(fields, "") + "}\n" == Json.RenderOnto(Json.Record(fields), "\n")
  {
    Json.FieldsSplit(fields, "}" + "\n");
    assert "}" + "\n" == "}\n";
  }

  /** The stream statements: the fields between braces, comma-separated, and a line feed. */
  method RecordText(fields: seq<Json.Field>) returns (text: string)
    requires fields != [] && forall i :: 0 <= i < |fields| ==> Json.NeedsNoEscape(fields[i].key)
    ensures text == Json.RenderOnto(Json.Record(fields), "\n")
  {
    PlainField(fields[0]);
    assert fields[..1] == [fields[0]];
    var body := FieldText(fields[0]);
    for i := 1 to |fields|
      invariant body == Json.FieldsOnto(fields[..i], "")
    {
      FieldsGrow(fields, i);
      body := body + ("," + FieldText(fields[i]));
    }
    assert fields[..|fields|] == fields;
    CloseRecord(fields);
    text := "{" + body + "}\n";
  }

  /**
   `make_structured_chain_record`: from the text it returns, the reader recovers every
   argument, the roots normalised and the lineage without repetitions.
   */
  method MakeStructuredChainRecord(chainId: string, source: Identity, sink: Identity, latency: uint64,
                                   lineage: seq<string>, contributing: seq<Identity>, status: string, dropCount: uint32,
                                   errorCount: uint64, overflowCount: uint64)
    returns (text: string)
    ensures HasLayout(text) && ReadRecord(text).Some?
    ensures var c := ReadRecord(text).value;
            && c.chainId == chainId && c.source == source && c.sink == sink && c.latency == latency
            && IsListing(NormalRoots(contributing, source), c.roots)
            && c.lineage == FirstAppearances(lineage)
            && c.status == status && c.dropCount == dropCount
            && c.errorCount == errorCount && c.overflowCount == overflowCount
  {
    var roots := NormalizedSourceRoots(contributing, source);
    var uniqueLineage := [];
    for i := 0 to |lineage|
      invariant uniqueLineage == FirstAppearances(lineage[..i])
    {
      assert lineage[..i + 1][..i] == lineage[..i];
      if lineage[i] !in uniqueLineage {
        uniqueLineage := uniqueLineage + [lineage[i]];
      }
    }
    assert lineage[..|lineage|] == lineage;
    var c := Completion(chainId, source, roots, sink, latency, uniqueLineage, status, dropCount, errorCount, overflowCount);
    PlainKeys(c);
    text := RecordText(Tree(c).fields);
    RecordReadsBack(c);
    RecordHasLayout(c);
  }
}
