/** The batch entries of a query-protocol request: form parameters named Prefix.N.Field, visited in any order. */
module QueryProtocol {
  import opened StoreTypes
  import opened Ordering
  import opened Text

  // ---------------------------------------------------------------- numbers


  predicate Digit(c: char) {
    '0' <= c <= '9'
  }

  function Number(digits: string): nat
    requires forall i :: 0 <= i < |digits| ==> Digit(digits[i])
  {
    if digits == [] then 0
    else
      assert Digit(digits[|digits| - 1]);
      10 * Number(digits[..|digits| - 1]) + (digits[|digits| - 1] as int - '0' as int)
  }

  /** strconv.Atoi: the value, and whether there was no error. Bad syntax gives 0, an overflow the nearest int64. */
  function Atoi(s: string): (int, bool) {
    var signed := s != [] && (s[0] == '-' || s[0] == '+');
    var digits := if signed then s[1..] else s;
    if digits == [] || exists i :: 0 <= i < |digits| && !Digit(digits[i]) then (0, false)
    else
      var n: int := Number(digits) * (if signed && s[0] == '-' then -1 else 1);
      if n > MAX_INT then (MAX_INT, false) else if n < -MAX_INT - 1 then (-MAX_INT - 1, false) else (n, true)
  }

  function Itoa(n: nat): (s: string)
    ensures s != [] && forall i :: 0 <= i < |s| ==> Digit(s[i])
  {
    if n < 10 then [('0' as int + n) as char] else Itoa(n / 10) + [('0' as int + n % 10) as char]
  }

  lemma {:induction false} NumberItoa(n: nat)
    ensures Number(Itoa(n)) == n
  {
    if n >= 10 {
      NumberItoa(n / 10);
      assert Itoa(n)[..|Itoa(n)| - 1] == Itoa(n / 10);
    } else {
      assert Itoa(n)[..0] == [];
    }
  }

  lemma AtoiItoa(n: nat)
    requires n <= MAX_INT
    ensures Atoi(Itoa(n)) == (n as int, true)
  {
    NumberItoa(n);
    assert Digit(Itoa(n)[0]);
  }

  // ---------------------------------------------------------------- entries

  datatype AttributeInput = AttributeInput(dataType: string, stringValue: string, binaryValue: string)

  datatype BatchEntry = BatchEntry(
    id: string,
    messageBody: string,
    delaySeconds: int,
    dedupId: string,
    groupId: string,
    receiptHandle: string,
    visibilityTimeout: int,
    attributes: map<string, AttributeInput>)

  datatype Parts = Parts(name: string, dataType: string, stringValue: string, binaryValue: string)

  /** What has been collected for one index: the entry and the pieces of its message attributes. */
  datatype Slot = Slot(entry: BatchEntry, parts: map<int, Parts>)

  const EMPTY_SLOT := Slot(BatchEntry("", "", 0, "", "", "", 0, map[]), map[])
  const EMPTY_PARTS := Parts("", "", "", "")

  datatype Field =
    | Id | MessageBody | DelaySeconds | MessageDeduplicationId | MessageGroupId | ReceiptHandle | VisibilityTimeout
    | Name | DataType | StringValue | BinaryValue
    | Unknown

  /** What a parameter name addresses: a field of entry idx, or a piece of its attribute attr. */
  datatype Target = Ignored | Target(idx: int, attr: Option<int>, field: Field)

  predicate IsBatchEntryPrefix(prefix: string) {
    || prefix == "SendMessageBatchRequestEntry"
    || prefix == "DeleteMessageBatchRequestEntry"
    || prefix == "ChangeMessageVisibilityBatchRequestEntry"
  }

  function ScalarField(name: string): Field {
    match name
    case "Id" => Id
    case "MessageBody" => MessageBody
    case "DelaySeconds" => DelaySeconds
    case "MessageDeduplicationId" => MessageDeduplicationId
    case "MessageGroupId" => MessageGroupId
    case "ReceiptHandle" => ReceiptHandle
    case "VisibilityTimeout" => VisibilityTimeout
    case _ => Unknown
  }

  function ValueField(name: string): Field {
    match name
    case "DataType" => DataType
    case "StringValue" => StringValue
    case "BinaryValue" => BinaryValue
    case _ => Unknown
  }

  function Meaning(key: string): Target {
    MeaningOf(Split(key, '.'))
  }

  function MeaningOf(parts: seq<string>): Target {
    if |parts| < 3 then Ignored
    else if !Atoi(parts[1]).1 then Ignored
    else if !IsBatchEntryPrefix(parts[0]) then Ignored
    else
      var idx := Atoi(parts[1]).0;
      if parts[2] != "MessageAttribute" then Target(idx, None, ScalarField(parts[2]))
      else if |parts| < 5 || !Atoi(parts[3]).1 then Target(idx, None, Unknown)
      else
        var attr := Some(Atoi(parts[3]).0);
        if parts[4] == "Name" then Target(idx, attr, Name)
        else if parts[4] == "Value" && |parts| >= 6 then Target(idx, attr, ValueField(parts[5]))
        else Target(idx, attr, Unknown)
  }

  function SetScalar(e: BatchEntry, f: Field, value: string): BatchEntry {
    match f
    case Id => e.(id := value)
    case MessageBody => e.(messageBody := value)
    case DelaySeconds => e.(delaySeconds := Atoi(value).0)
    case MessageDeduplicationId => e.(dedupId := value)
    case MessageGroupId => e.(groupId := value)
    case ReceiptHandle => e.(receiptHandle := value)
    case VisibilityTimeout => e.(visibilityTimeout := Atoi(value).0)
    case _ => e
  }

  function SetPart(p: Parts, f: Field, value: string): Parts {
    match f
    case Name => p.(name := value)
    case DataType => p.(dataType := value)
    case StringValue => p.(stringValue := value)
    case BinaryValue => p.(binaryValue := value)
    case _ => p
  }

  /** One parameter with its first value. */
  function Visit(slots: map<int, Slot>, key: string, value: string): map<int, Slot> {
    match Meaning(key)
    case Ignored => slots
    case Target(idx, attr, field) =>
      var slot := if idx in slots then slots[idx] else EMPTY_SLOT;
      slots[idx := match attr
                   case None => slot.(entry := SetScalar(slot.entry, field, value))
                   case Some(a) =>
                     var p := if a in slot.parts then slot.parts[a] else EMPTY_PARTS;
                     slot.(parts := slot.parts[a := SetPart(p, field, value)])]
  }

  function VisitAll(values: map<string, seq<string>>, order: seq<string>): map<int, Slot>
    requires forall i :: 0 <= i < |order| ==> order[i] in values
  {
    if order == [] then map[]
    else
      var before, key := VisitAll(values, order[..|order| - 1]), order[|order| - 1];
      if values[key] == [] then before else Visit(before, key, values[key][0])
  }

  /** Attributes numbered from 1 to n; one without a name or a type is skipped. */
  function Assemble(parts: map<int, Parts>, n: nat): map<string, AttributeInput> {
    if n == 0 then map[]
    else
      var before := Assemble(parts, n - 1);
      if n in parts && parts[n].name != "" && parts[n].dataType != ""
      then before[parts[n].name := AttributeInput(parts[n].dataType, parts[n].stringValue, parts[n].binaryValue)]
      else before
  }

  function Finish(slot: Slot): BatchEntry {
    slot.entry.(attributes := Assemble(slot.parts, |slot.parts|))
  }

  /** A way to visit all parameters. */
  ghost predicate IsOrder(values: map<string, seq<string>>, order: seq<string>) {
    && (forall i :: 0 <= i < |order| ==> order[i] in values)
    && (forall key :: key in values ==> key in order)
    && NoRepeats(order)
  }

  /** The finished entries by increasing index. */
  ghost predicate Listed(slots: map<int, Slot>, indices: seq<int>, result: seq<BatchEntry>) {
    && Increasing(indices) && (forall i :: i in indices <==> i in slots)
    && |result| == |indices|
    && forall k :: 0 <= k < |indices| ==> indices[k] in slots && result[k] == Finish(slots[indices[k]])
  }

  // ---------------------------------------------------------------- the parser

  /** result is what comes out when the parameters are visited in this order. */
  ghost predicate ParsedInOrder(values: map<string, seq<string>>, order: seq<string>, indices: seq<int>,
                                result: seq<BatchEntry>) {
    IsOrder(values, order) && Listed(VisitAll(values, order), indices, result)
  }

  /** result may come out of the parser: the map is visited in some order. */
  ghost predicate MayParseAs(values: map<string, seq<string>>, result: seq<BatchEntry>) {
    exists order, indices :: ParsedInOrder(values, order, indices, result)
  }

  /** parseBatchEntries. */
  method ParseBatchEntries(values: map<string, seq<string>>) returns (result: seq<BatchEntry>)
    ensures MayParseAs(values, result)
  {
    var slots: map<int, Slot> := map[];
    var todo := values.Keys;
    ghost var order := [];
    while todo != {}
      invariant todo <= values.Keys
      invariant forall i :: 0 <= i < |order| ==> order[i] in values && order[i] !in todo
      invariant forall key :: key in values ==> key in order || key in todo
      invariant forall i, j :: 0 <= i < j < |order| ==> order[i] != order[j]
      invariant slots == VisitAll(values, order)
      decreases |todo|
    {
      var key :| key in todo;
      todo := todo - {key};
      assert (order + [key])[..|order|] == order;
      order := order + [key];
      if |values[key]| != 0 {
        slots := Visit(slots, key, values[key][0]);
      }
    }
    var sorted := SortInts(slots.Keys);
    result := [];
    for k := 0 to |sorted|
      invariant |result| == k
      invariant forall j :: 0 <= j < k ==> result[j] == Finish(slots[sorted[j]])
    {
      var attributes := AssembleAttributes(slots[sorted[k]].parts);
      result := result + [slots[sorted[k]].entry.(attributes := attributes)];
    }
    assert ParsedInOrder(values, order, sorted, result);
  }

  method AssembleAttributes(parts: map<int, Parts>) returns (attributes: map<string, AttributeInput>)
    ensures attributes == Assemble(parts, |parts|)
  {
    attributes := map[];
    for n := 1 to |parts| + 1
      invariant attributes == Assemble(parts, n - 1)
    {
      if n in parts && parts[n].name != "" && parts[n].dataType != "" {
        attributes := attributes[parts[n].name :=
                        AttributeInput(parts[n].dataType, parts[n].stringValue, parts[n].binaryValue)];
      }
    }
  }

  /** The indices in increasing order. */
  method SortInts(keys: set<int>) returns (sorted: seq<int>)
    ensures Increasing(sorted) && forall k :: k in sorted <==> k in keys
    ensures forall i :: 0 <= i < |sorted| ==> sorted[i] in keys
  {
    sorted := [];
    var rest := keys;
    while rest != {}
      invariant rest <= keys && Increasing(sorted)
      invariant forall i :: 0 <= i < |sorted| ==> sorted[i] in keys
      invariant forall k :: k in keys <==> k in rest || k in sorted
      invariant forall i, k :: 0 <= i < |sorted| && k in rest ==> sorted[i] < k
      decreases |rest|
    {
      LeastExists(rest, (k: int) => k);
      var k :| k in rest && IsLeast(rest, (k: int) => k, k);
      rest := rest - {k};
      sorted := sorted + [k];
    }
  }

  // ---------------------------------------------------------------- rendering

  datatype SentAttribute = SentAttribute(name: string, value: AttributeInput)

  /** An entry as a client means it. */
  datatype SentEntry = SentEntry(entry: BatchEntry, attributes: seq<SentAttribute>)

  /** Names are distinct and not empty, types are not empty, and the entry has an id. */
  ghost predicate WellFormed(e: SentEntry) {
    && e.entry.id != "" && e.entry.attributes == map[]
    && |e.attributes| <= MAX_INT
    && (forall a :: 0 <= a < |e.attributes| ==> e.attributes[a].name != "" && e.attributes[a].value.dataType != "")
    && (forall a, b :: 0 <= a < b < |e.attributes| ==> e.attributes[a].name != e.attributes[b].name)
  }

  function AttributeMap(attributes: seq<SentAttribute>): map<string, AttributeInput> {
    if attributes == [] then map[]
    else
      var last := attributes[|attributes| - 1];
      AttributeMap(attributes[..|attributes| - 1])[last.name := last.value]
  }

  function FieldName(f: Field): string {
    match f
    case Id => "Id"
    case MessageBody => "MessageBody"
    case DelaySeconds => "DelaySeconds"
    case MessageDeduplicationId => "MessageDeduplicationId"
    case MessageGroupId => "MessageGroupId"
    case ReceiptHandle => "ReceiptHandle"
    case VisibilityTimeout => "VisibilityTimeout"
    case Name => "Name"
    case DataType => "DataType"
    case StringValue => "StringValue"
    case BinaryValue => "BinaryValue"
    case Unknown => "Unknown"
  }

  predicate IsScalar(f: Field) {
    f.Id? || f.MessageBody? || f.DelaySeconds? || f.MessageDeduplicationId? || f.MessageGroupId? || f.ReceiptHandle?
    || f.VisibilityTimeout?
  }

  predicate IsPart(f: Field) {
    f.Name? || f.DataType? || f.StringValue? || f.BinaryValue?
  }

  /** A target within the entries: both are numbered from 1. */
  ghost predicate Known(entries: seq<SentEntry>, t: Target) {
    && t.Target? && 1 <= t.idx <= |entries|
    && match t.attr
       case None => IsScalar(t.field)
       case Some(a) => 1 <= a <= |entries[t.idx - 1].attributes| && IsPart(t.field)
  }

  function KeyParts(prefix: string, t: Target): seq<string>
    requires t.Target? && t.idx >= 0 && (t.attr.Some? ==> t.attr.value >= 0)
  {
    [prefix, Itoa(t.idx)] +
    match t.attr
    case None => [FieldName(t.field)]
    case Some(a) =>
      ["MessageAttribute", Itoa(a)] + if t.field.Name? then ["Name"] else ["Value", FieldName(t.field)]
  }

  function KeyOf(prefix: string, t: Target): string
    requires t.Target? && t.idx >= 0 && (t.attr.Some? ==> t.attr.value >= 0)
  {
    Join(KeyParts(prefix, t), '.')
  }

  /** The content of a field: text or a number. */
  datatype Content = Str(text: string) | Num(number: int)

  function ScalarOf(e: BatchEntry, f: Field): Content {
    match f
    case Id => Str(e.id)
    case MessageBody => Str(e.messageBody)
    case DelaySeconds => Num(e.delaySeconds)
    case MessageDeduplicationId => Str(e.dedupId)
    case MessageGroupId => Str(e.groupId)
    case ReceiptHandle => Str(e.receiptHandle)
    case VisibilityTimeout => Num(e.visibilityTimeout)
    case _ => Str("")
  }

  function PartOf(p: Parts, f: Field): Content {
    match f
    case Name => Str(p.name)
    case DataType => Str(p.dataType)
    case StringValue => Str(p.stringValue)
    case BinaryValue => Str(p.binaryValue)
    case _ => Str("")
  }

  function Default(f: Field): Content {
    if f.DelaySeconds? || f.VisibilityTimeout? then Num(0) else Str("")
  }

  function Read(f: Field, text: string): Content {
    if f.DelaySeconds? || f.VisibilityTimeout? then Num(Atoi(text).0) else Str(text)
  }

  function PartsOf(a: SentAttribute): Parts {
    Parts(a.name, a.value.dataType, a.value.stringValue, a.value.binaryValue)
  }

  /** What a target holds in the entries. */
  function Wanted(entries: seq<SentEntry>, t: Target): Content
    requires Known(entries, t)
  {
    match t.attr
    case None => ScalarOf(entries[t.idx - 1].entry, t.field)
    case Some(a) => PartOf(PartsOf(entries[t.idx - 1].attributes[a - 1]), t.field)
  }

  /** What a target holds in the slots; the default where nothing was collected. */
  function Collected(slots: map<int, Slot>, t: Target): Content
    requires t.Target?
  {
    if t.idx !in slots then Default(t.field)
    else match t.attr
      case None => ScalarOf(slots[t.idx].entry, t.field)
      case Some(a) => if a in slots[t.idx].parts then PartOf(slots[t.idx].parts[a], t.field) else Default(t.field)
  }

  /** The values render the entries under one prefix: every parameter is foreign to batches or one of the rendering,
      with its text; every field that is not empty is there. Empty fields may be there or not. */
  ghost predicate Renders(values: map<string, seq<string>>, prefix: string, entries: seq<SentEntry>) {
    && IsBatchEntryPrefix(prefix) && |entries| <= MAX_INT
    && (forall i :: 0 <= i < |entries| ==> WellFormed(entries[i]))
    && (forall key :: key in values && values[key] != [] && Meaning(key) != Ignored ==>
         Known(entries, Meaning(key)) && key == KeyOf(prefix, Meaning(key))
         && Read(Meaning(key).field, values[key][0]) == Wanted(entries, Meaning(key)))
    && (forall t :: Known(entries, t) && Wanted(entries, t) != Default(t.field) ==>
         KeyOf(prefix, t) in values && values[KeyOf(prefix, t)] != [])
  }

  // ---------------------------------------------------------------- keys mean what they were made for

  lemma NoDotInDigits(n: nat)
    ensures Free(Itoa(n), '.')
  {
    forall i | 0 <= i < |Itoa(n)| ensures Itoa(n)[i] != '.' { assert Digit(Itoa(n)[i]); }
  }

  lemma ScalarNames(f: Field)
    requires IsScalar(f)
    ensures ScalarField(FieldName(f)) == f && FieldName(f) != "MessageAttribute"
  {
  }

  lemma PartNames(f: Field)
    requires IsPart(f) && !f.Name?
    ensures ValueField(FieldName(f)) == f && Free(FieldName(f), '.')
  {
  }

  lemma ScalarNamesHaveNoDot(f: Field)
    requires IsScalar(f)
    ensures Free(FieldName(f), '.')
  {
    match f
    case Id => assert Free("Id", '.');
    case MessageBody => assert Free("MessageBody", '.');
    case DelaySeconds => assert Free("DelaySeconds", '.');
    case MessageDeduplicationId => assert Free("MessageDeduplicationId", '.');
    case MessageGroupId => assert Free("MessageGroupId", '.');
    case ReceiptHandle => assert Free("ReceiptHandle", '.');
    case VisibilityTimeout => assert Free("VisibilityTimeout", '.');
  }

  lemma PrefixHasNoDot(prefix: string)
    requires IsBatchEntryPrefix(prefix)
    ensures Free(prefix, '.')
  {
    if prefix == "SendMessageBatchRequestEntry" {
      SendPrefix();
    } else if prefix == "DeleteMessageBatchRequestEntry" {
      DeletePrefix();
    } else {
      ChangePrefix();
    }
  }

  lemma SendPrefix()
    ensures Free("SendMessageBatchRequestEntry", '.')
  {
  }

  lemma DeletePrefix()
    ensures Free("DeleteMessageBatchRequestEntry", '.')
  {
  }

  lemma ChangePrefix()
    ensures Free("ChangeMessageVisibilityBatchRequestEntry", '.')
  {
  }

  lemma ScalarKeyMeans(prefix: string, t: Target)
    requires IsBatchEntryPrefix(prefix) && t.Target? && 0 <= t.idx <= MAX_INT && t.attr.None? && IsScalar(t.field)
    ensures MeaningOf(KeyParts(prefix, t)) == t
    ensures forall i :: 0 <= i < 3 ==> Free(KeyParts(prefix, t)[i], '.')
  {
    hide Atoi, Itoa, FieldName, ScalarField, Free;
    AtoiItoa(t.idx);
    NoDotInDigits(t.idx);
    ScalarNames(t.field);
    ScalarNamesHaveNoDot(t.field);
    PrefixHasNoDot(prefix);
    assert KeyParts(prefix, t) == [prefix, Itoa(t.idx), FieldName(t.field)];
  }

  lemma PartKeyMeans(prefix: string, t: Target)
    requires IsBatchEntryPrefix(prefix) && t.Target? && 0 <= t.idx <= MAX_INT && IsPart(t.field)
    requires t.attr.Some? && 0 <= t.attr.value <= MAX_INT
    ensures MeaningOf(KeyParts(prefix, t)) == t
    ensures forall i :: 0 <= i < |KeyParts(prefix, t)| ==> Free(KeyParts(prefix, t)[i], '.')
  {
    assert Free("MessageAttribute", '.') && Free("Name", '.') && Free("Value", '.');
    hide Atoi, Itoa, FieldName, ValueField, Free;
    AtoiItoa(t.idx);
    NoDotInDigits(t.idx);
    AtoiItoa(t.attr.value);
    NoDotInDigits(t.attr.value);
    if !t.field.Name? { PartNames(t.field); }
    PrefixHasNoDot(prefix);
    if t.field.Name? {
      assert KeyParts(prefix, t) == [prefix, Itoa(t.idx), "MessageAttribute", Itoa(t.attr.value), "Name"];
    } else {
      assert KeyParts(prefix, t)
          == [prefix, Itoa(t.idx), "MessageAttribute", Itoa(t.attr.value), "Value", FieldName(t.field)];
    }
  }

  lemma KeyMeansTarget(prefix: string, entries: seq<SentEntry>, t: Target)
    requires IsBatchEntryPrefix(prefix) && |entries| <= MAX_INT && Known(entries, t) && WellFormed(entries[t.idx - 1])
    ensures Meaning(KeyOf(prefix, t)) == t
  {
    if t.attr.None? { ScalarKeyMeans(prefix, t); } else { PartKeyMeans(prefix, t); }
    hide MeaningOf, Free;
    SplitJoin(KeyParts(prefix, t), '.');
  }

  // ---------------------------------------------------------------- the collected content

  /** Visiting a key changes the content of its target and of nothing else. */
  lemma VisitSets(slots: map<int, Slot>, key: string, value: string, t: Target)
    requires t.Target? && (if t.attr.None? then IsScalar(t.field) else IsPart(t.field))
    ensures Collected(Visit(slots, key, value), t)
         == if Meaning(key) == t then Read(t.field, value) else Collected(slots, t)
  {
    hide Meaning;
    var m := Meaning(key);
    if m.Target? && m.idx == t.idx && m.attr == t.attr && m.field != t.field {
      SetOther(slots, t, m.field, value);
    }
  }

  lemma SetOther(slots: map<int, Slot>, t: Target, f: Field, value: string)
    requires t.Target? && f != t.field
    ensures forall e: BatchEntry :: ScalarOf(SetScalar(e, f, value), t.field) == ScalarOf(e, t.field)
    ensures forall p: Parts :: PartOf(SetPart(p, f, value), t.field) == PartOf(p, t.field)
  {
  }

  // ---------------------------------------------------------------- the round trip

  /** The parameter with this key is among the visited ones. */
  ghost predicate Seen(values: map<string, seq<string>>, order: seq<string>, key: string) {
    key in order && key in values && values[key] != []
  }

  /** After visiting some parameters every known target holds what the client meant if its parameter was seen, and
      nothing otherwise. */
  lemma {:induction false} VisitedContent(values: map<string, seq<string>>, prefix: string, entries: seq<SentEntry>,
                                          order: seq<string>, t: Target)
    requires Renders(values, prefix, entries) && Known(entries, t)
    requires forall i :: 0 <= i < |order| ==> order[i] in values
    ensures Collected(VisitAll(values, order), t)
         == if Seen(values, order, KeyOf(prefix, t)) then Wanted(entries, t) else Default(t.field)
  {
    KeyMeansTarget(prefix, entries, t);
    hide Meaning, KeyOf, Wanted, Collected, WellFormed;
    if order == [] {
      NothingCollected(t);
    } else {
      var before, key := order[..|order| - 1], order[|order| - 1];
      VisitedContent(values, prefix, entries, before, t);
      assert forall k :: k in order <==> k in before || k == key;
      if values[key] != [] {
        VisitSets(VisitAll(values, before), key, values[key][0], t);
        if Meaning(key) == t { assert key == KeyOf(prefix, t); }
      }
    }
  }

  lemma NothingCollected(t: Target)
    requires t.Target?
    ensures Collected(map[], t) == Default(t.field)
  {
  }

  /** After visiting everything each known target holds what the client meant. */
  lemma AllCollected(values: map<string, seq<string>>, prefix: string, entries: seq<SentEntry>, order: seq<string>,
                     t: Target)
    requires Renders(values, prefix, entries) && IsOrder(values, order) && Known(entries, t)
    ensures Collected(VisitAll(values, order), t) == Wanted(entries, t)
  {
    VisitedContent(values, prefix, entries, order, t);
  }

  /** The indices and attribute numbers that occur are those of the entries. */
  ghost predicate Within(slots: map<int, Slot>, entries: seq<SentEntry>) {
    forall idx :: idx in slots ==>
      && 1 <= idx <= |entries|
      && slots[idx].entry.attributes == map[]
      && forall a :: a in slots[idx].parts ==> 1 <= a <= |entries[idx - 1].attributes|
  }

  lemma {:induction false} VisitedWithin(values: map<string, seq<string>>, prefix: string, entries: seq<SentEntry>,
                                         order: seq<string>)
    requires Renders(values, prefix, entries) && forall i :: 0 <= i < |order| ==> order[i] in values
    ensures Within(VisitAll(values, order), entries)
  {
    hide Meaning, KeyOf, Wanted, WellFormed;
    if order != [] {
      var before, key := order[..|order| - 1], order[|order| - 1];
      VisitedWithin(values, prefix, entries, before);
    }
  }

  /** Slot idx holds exactly entry idx. */
  lemma SlotHoldsEntry(values: map<string, seq<string>>, prefix: string, entries: seq<SentEntry>, order: seq<string>,
                       idx: int)
    requires Renders(values, prefix, entries) && IsOrder(values, order) && 1 <= idx <= |entries|
    ensures var slots := VisitAll(values, order);
            idx in slots && slots[idx].entry == entries[idx - 1].entry
  {
    var slots := VisitAll(values, order);
    VisitedWithin(values, prefix, entries, order);
    forall f | IsScalar(f)
      ensures Collected(slots, Target(idx, None, f)) == ScalarOf(entries[idx - 1].entry, f)
    {
      AllCollected(values, prefix, entries, order, Target(idx, None, f));
    }
    assert Collected(slots, Target(idx, None, Id)) == Str(entries[idx - 1].entry.id);
    assert WellFormed(entries[idx - 1]);
    SameScalars(slots[idx].entry, entries[idx - 1].entry);
  }

  lemma SameScalars(a: BatchEntry, b: BatchEntry)
    requires a.attributes == b.attributes && forall f :: IsScalar(f) ==> ScalarOf(a, f) == ScalarOf(b, f)
    ensures a == b
  {
    assert ScalarOf(a, Id) == ScalarOf(b, Id) && ScalarOf(a, MessageBody) == ScalarOf(b, MessageBody);
    assert ScalarOf(a, DelaySeconds) == ScalarOf(b, DelaySeconds);
    assert ScalarOf(a, MessageDeduplicationId) == ScalarOf(b, MessageDeduplicationId);
    assert ScalarOf(a, MessageGroupId) == ScalarOf(b, MessageGroupId);
    assert ScalarOf(a, ReceiptHandle) == ScalarOf(b, ReceiptHandle);
    assert ScalarOf(a, VisibilityTimeout) == ScalarOf(b, VisibilityTimeout);
  }

  lemma NamedAttributes(values: map<string, seq<string>>, prefix: string, entries: seq<SentEntry>, idx: int)
    requires Renders(values, prefix, entries) && 1 <= idx <= |entries|
    ensures var attributes := entries[idx - 1].attributes;
            forall a :: 0 <= a < |attributes| ==> attributes[a].name != "" && attributes[a].value.dataType != ""
  {
    assert WellFormed(entries[idx - 1]);
  }

  /** And its attribute pieces are those of the entry. */
  lemma SlotHoldsParts(values: map<string, seq<string>>, prefix: string, entries: seq<SentEntry>, order: seq<string>,
                       idx: int, a: int)
    requires Renders(values, prefix, entries) && IsOrder(values, order) && 1 <= idx <= |entries|
    requires idx in VisitAll(values, order) && 1 <= a <= |entries[idx - 1].attributes|
    ensures var parts := VisitAll(values, order)[idx].parts;
            a in parts && parts[a] == PartsOf(entries[idx - 1].attributes[a - 1])
  {
    var slots := VisitAll(values, order);
    hide VisitAll, Renders, IsOrder, Collected, WellFormed;
    NamedAttributes(values, prefix, entries, idx);
    var wanted := PartsOf(entries[idx - 1].attributes[a - 1]);
    forall f | IsPart(f) ensures Collected(slots, Target(idx, Some(a), f)) == PartOf(wanted, f) {
      AllCollected(values, prefix, entries, order, Target(idx, Some(a), f));
    }
    PartsFromContent(slots, idx, a, wanted);
  }

  lemma PartsFromContent(slots: map<int, Slot>, idx: int, a: int, wanted: Parts)
    requires idx in slots && wanted.name != ""
    requires forall f :: IsPart(f) ==> Collected(slots, Target(idx, Some(a), f)) == PartOf(wanted, f)
    ensures a in slots[idx].parts && slots[idx].parts[a] == wanted
  {
    assert Collected(slots, Target(idx, Some(a), Name)) == Str(wanted.name);
    assert Collected(slots, Target(idx, Some(a), DataType)) == Str(wanted.dataType);
    assert Collected(slots, Target(idx, Some(a), StringValue)) == Str(wanted.stringValue);
    assert Collected(slots, Target(idx, Some(a), BinaryValue)) == Str(wanted.binaryValue);
  }

  lemma {:induction false} AssembledPrefix(parts: map<int, Parts>, attributes: seq<SentAttribute>, n: nat)
    requires n <= |attributes|
    requires forall a :: 1 <= a <= n ==> a in parts && parts[a] == PartsOf(attributes[a - 1])
    requires forall a :: 0 <= a < |attributes| ==> attributes[a].name != "" && attributes[a].value.dataType != ""
    ensures Assemble(parts, n) == AttributeMap(attributes[..n])
  {
    if n > 0 {
      AssembledPrefix(parts, attributes, n - 1);
      assert attributes[..n][..n - 1] == attributes[..n - 1];
      assert n in parts;
    }
  }

  function UpToSet(n: nat): set<int> {
    if n == 0 then {} else UpToSet(n - 1) + {n}
  }

  lemma {:induction false} CountUpTo(n: nat)
    ensures |UpToSet(n)| == n && forall k :: k in UpToSet(n) <==> 1 <= k <= n
  {
    if n > 0 { CountUpTo(n - 1); }
  }

  lemma {:induction false} UpTo(indices: seq<int>, n: nat)
    requires Increasing(indices) && forall k :: k in indices <==> 1 <= k <= n
    ensures |indices| == n && forall i :: 0 <= i < n ==> indices[i] == i + 1
  {
    assert forall i :: 0 <= i < |indices| ==> indices[i] in indices;
    assert |indices| > 0 ==> indices[0] in indices;
    if n > 0 {
      assert n in indices;
      var last := |indices| - 1;
      assert indices[last] == n;
      var front := indices[..last];
      forall k ensures k in front <==> 1 <= k <= n - 1 {
        if 1 <= k <= n - 1 {
          assert k in indices;
          var i :| 0 <= i < |indices| && indices[i] == k;
          assert front[i] == k;
        }
        if k in front {
          var i :| 0 <= i < last && front[i] == k;
          assert indices[i] in indices;
        }
      }
      UpTo(front, n - 1);
    }
  }

  /** The entry a client means, as the server represents it. */
  function Meant(e: SentEntry): BatchEntry {
    e.entry.(attributes := AttributeMap(e.attributes))
  }

  lemma FinishedEntry(values: map<string, seq<string>>, prefix: string, entries: seq<SentEntry>, order: seq<string>,
                      idx: int)
    requires Renders(values, prefix, entries) && IsOrder(values, order) && 1 <= idx <= |entries|
    ensures idx in VisitAll(values, order) && Finish(VisitAll(values, order)[idx]) == Meant(entries[idx - 1])
  {
    var attributes := entries[idx - 1].attributes;
    hide VisitAll, Renders, IsOrder, WellFormed;
    NamedAttributes(values, prefix, entries, idx);
    SlotHoldsEntry(values, prefix, entries, order, idx);
    VisitedWithin(values, prefix, entries, order);
    var slot := VisitAll(values, order)[idx];
    forall a | 1 <= a <= |attributes| ensures a in slot.parts && slot.parts[a] == PartsOf(attributes[a - 1]) {
      SlotHoldsParts(values, prefix, entries, order, idx, a);
    }
    CountUpTo(|attributes|);
    assert slot.parts.Keys == UpToSet(|attributes|);
    AssembledPrefix(slot.parts, attributes, |attributes|);
    assert attributes[..|attributes|] == attributes;
  }

  /** Parsing undoes rendering: whatever the order in which the parameters are visited, the parser returns the client's
      entries, in order. */
  lemma ParseUndoesRender(values: map<string, seq<string>>, prefix: string, entries: seq<SentEntry>,
                          result: seq<BatchEntry>)
    requires Renders(values, prefix, entries) && MayParseAs(values, result)
    ensures |result| == |entries| && forall i :: 0 <= i < |entries| ==> result[i] == Meant(entries[i])
  {
    var order, indices :| ParsedInOrder(values, order, indices, result);
    ParseInOrder(values, prefix, entries, order, indices, result);
  }

  lemma ParseInOrder(values: map<string, seq<string>>, prefix: string, entries: seq<SentEntry>, order: seq<string>,
                     indices: seq<int>, result: seq<BatchEntry>)
    requires Renders(values, prefix, entries)
    requires IsOrder(values, order) && Listed(VisitAll(values, order), indices, result)
    ensures |result| == |entries| && forall i :: 0 <= i < |entries| ==> result[i] == Meant(entries[i])
  {
    var slots := VisitAll(values, order);
    hide VisitAll, Renders, IsOrder, Finish, Meant, Listed;
    VisitedWithin(values, prefix, entries, order);
    forall idx | 1 <= idx <= |entries| ensures idx in slots && Finish(slots[idx]) == Meant(entries[idx - 1]) {
      FinishedEntry(values, prefix, entries, order, idx);
    }
    AllListed(slots, entries, indices, result);
  }

  lemma AllListed(slots: map<int, Slot>, entries: seq<SentEntry>, indices: seq<int>, result: seq<BatchEntry>)
    requires Listed(slots, indices, result) && Within(slots, entries)
    requires forall idx :: 1 <= idx <= |entries| ==> idx in slots && Finish(slots[idx]) == Meant(entries[idx - 1])
    ensures |result| == |entries| && forall i :: 0 <= i < |entries| ==> result[i] == Meant(entries[i])
  {
    hide Finish, Meant;
    forall k ensures k in indices <==> 1 <= k <= |entries| {
      assert k in indices <==> k in slots;
    }
    UpTo(indices, |entries|);
    hide Within;
    forall i | 0 <= i < |entries| ensures result[i] == Meant(entries[i]) {
      assert indices[i] == i + 1;
    }
  }

  // ---------------------------------------------------------------- a client's own rendering

  /** The text of a field. */
  function TextOf(c: Content): string {
    match c
    case Str(text) => text
    case Num(n) => if n < 0 then "-" + Itoa(-n) else Itoa(n)
  }

  predicate InRange(e: BatchEntry) {
    -MAX_INT - 1 <= e.delaySeconds <= MAX_INT && -MAX_INT - 1 <= e.visibilityTimeout <= MAX_INT
  }

  lemma ReadTextOf(f: Field, c: Content)
    requires c.Num? <==> f.DelaySeconds? || f.VisibilityTimeout?
    requires c.Num? ==> -MAX_INT - 1 <= c.number <= MAX_INT
    ensures Read(f, TextOf(c)) == c
  {
    if c.Num? && c.number < 0 {
      AtoiNegative(-c.number);
    } else if c.Num? {
      AtoiItoa(c.number);
    }
  }

  lemma AtoiNegative(n: nat)
    requires 0 < n <= MAX_INT + 1
    ensures Atoi("-" + Itoa(n)).0 + n == 0 && Atoi("-" + Itoa(n)).1
  {
    NumberItoa(n);
    var s := "-" + Itoa(n);
    assert s[0] == '-' && s[1..] == Itoa(n);
  }

  /** Every field of every entry under its own parameter. */
  ghost predicate WritesAll(values: map<string, seq<string>>, prefix: string, entries: seq<SentEntry>) {
    && (forall t :: Known(entries, t) ==>
         KeyOf(prefix, t) in values && values[KeyOf(prefix, t)] == [TextOf(Wanted(entries, t))])
    && (forall key :: key in values ==> exists t :: Known(entries, t) && key == KeyOf(prefix, t))
  }

  /** A client that writes all fields of well-formed entries, with numbers in Go's range, renders them. */
  lemma WritingAllRenders(values: map<string, seq<string>>, prefix: string, entries: seq<SentEntry>)
    requires IsBatchEntryPrefix(prefix) && |entries| <= MAX_INT
    requires forall i :: 0 <= i < |entries| ==> WellFormed(entries[i]) && InRange(entries[i].entry)
    requires WritesAll(values, prefix, entries)
    ensures Renders(values, prefix, entries)
  {
    forall key | key in values && values[key] != [] && Meaning(key) != Ignored
      ensures Known(entries, Meaning(key)) && key == KeyOf(prefix, Meaning(key))
      ensures Read(Meaning(key).field, values[key][0]) == Wanted(entries, Meaning(key))
    {
      var t :| Known(entries, t) && key == KeyOf(prefix, t);
      WrittenKey(values, prefix, entries, t);
    }
  }

  lemma WrittenKey(values: map<string, seq<string>>, prefix: string, entries: seq<SentEntry>, t: Target)
    requires IsBatchEntryPrefix(prefix) && |entries| <= MAX_INT && Known(entries, t)
    requires WellFormed(entries[t.idx - 1]) && InRange(entries[t.idx - 1].entry) && WritesAll(values, prefix, entries)
    ensures Meaning(KeyOf(prefix, t)) == t
    ensures Read(t.field, values[KeyOf(prefix, t)][0]) == Wanted(entries, t)
  {
    KeyMeansTarget(prefix, entries, t);
    ReadTextOf(t.field, Wanted(entries, t));
  }

  /** So the list of entries that a client writes out in full comes back from the parser in every order. */
  lemma FullRenderingParsesBack(values: map<string, seq<string>>, prefix: string, entries: seq<SentEntry>,
                                result: seq<BatchEntry>)
    requires IsBatchEntryPrefix(prefix) && |entries| <= MAX_INT
    requires forall i :: 0 <= i < |entries| ==> WellFormed(entries[i]) && InRange(entries[i].entry)
    requires WritesAll(values, prefix, entries) && MayParseAs(values, result)
    ensures |result| == |entries| && forall i :: 0 <= i < |entries| ==> result[i] == Meant(entries[i])
  {
    WritingAllRenders(values, prefix, entries);
    ParseUndoesRender(values, prefix, entries, result);
  }
}
