/**
 * `duplicate` of the generic configuration object: copies of one object are
 * inserted under the first free labels `<label>_1`, `<label>_2`, ... .
 * The row read by `getParameters` and the set of labels already in the table
 * are inputs; the copies are the rows handed to `insert`, in order.
 */
module ObjectDuplicate {
  import opened Base
  import opened PhpStrings
  import opened ObjectSql

  // ===========================================================================
  // PHP array access on a row

  /** `$row[$key]`: the value under the first entry with that key, if any. */
  function Lookup(row: Row, key: string): (r: Option<Value>)
    ensures r.None? <==> forall i :: 0 <= i < |row| ==> row[i].0 != key
    ensures r.Some? ==> exists i :: 0 <= i < |row| && row[i] == (key, r.value) &&
                                    forall m :: 0 <= m < i ==> row[m].0 != key
    decreases |row|
  {
    if |row| == 0 then None
    else if row[0].0 == key then Some(row[0].1)
    else
      var r := Lookup(row[1..], key);
      assert forall i :: 1 <= i < |row| ==> row[1..][i - 1] == row[i];
      r
  }

  /** PHP's `isset($row[$key])`: the key is present and its value is not null. */
  predicate IsSet(row: Row, key: string) {
    Lookup(row, key).Some? && Lookup(row, key).value.Text?
  }

  /** `unset($row[$key])`. */
  function Unset(row: Row, key: string): (r: Row)
    ensures |r| <= |row|
    ensures forall i :: 0 <= i < |r| ==> r[i].0 != key
    ensures forall k :: k != key ==> Lookup(r, k) == Lookup(row, k)
    decreases |row|
  {
    if |row| == 0 then []
    else
      var rest := Unset(row[1..], key);
      if row[0].0 == key then rest
      else
        assert ([row[0]] + rest)[1..] == rest;
        [row[0]] + rest
  }

  /** Overwrites every entry under `key` in place. */
  function Overwrite(row: Row, key: string, v: Value): (r: Row)
    ensures |r| == |row|
    ensures forall i :: 0 <= i < |row| ==> r[i].0 == row[i].0
    ensures forall i :: 0 <= i < |row| ==> r[i] == (if row[i].0 == key then (key, v) else row[i])
  {
    seq(|row|, i requires 0 <= i < |row| => if row[i].0 == key then (key, v) else row[i])
  }

  /** `$row[$key] = $v`: overwrites the entry in place, or appends one when the key is new. */
  function Put(row: Row, key: string, v: Value): Row {
    if Lookup(row, key).Some? then Overwrite(row, key, v) else row + [(key, v)]
  }

  /** After `$row[$key] = $v`, the row maps `key` to `v` and every other key as before. */
  lemma {:induction false} LookupPut(row: Row, key: string, v: Value)
    ensures Lookup(Put(row, key, v), key) == Some(v)
    ensures forall k :: k != key ==> Lookup(Put(row, key, v), k) == Lookup(row, k)
    ensures Lookup(row, key).Some? ==> Keys(Put(row, key, v)) == Keys(row)
  {
    var r := Put(row, key, v);
    forall k ensures Lookup(r, k) == (if k == key then Some(v) else Lookup(row, k)) {
      if Lookup(row, key).Some? {
        LookupOverwrite(row, key, v, k);
      } else {
        LookupAppend(row, key, v, k);
      }
    }
  }

  /** Looking up a key in a row whose entries under `key` were overwritten. */
  lemma {:induction false} LookupOverwrite(row: Row, key: string, v: Value, k: string)
    requires Lookup(row, key).Some?
    ensures Lookup(Overwrite(row, key, v), k) == (if k == key then Some(v) else Lookup(row, k))
    decreases |row|
  {
    var r := Overwrite(row, key, v);
    if row[0].0 != key {
      assert Lookup(row[1..], key).Some?;
      assert r[1..] == Overwrite(row[1..], key, v);
      if k != row[0].0 {
        LookupOverwrite(row[1..], key, v, k);
      }
    }
  }

  /** Looking up a key in a row extended by one entry under a new key. */
  lemma {:induction false} LookupAppend(row: Row, key: string, v: Value, k: string)
    requires Lookup(row, key).None?
    ensures Lookup(row + [(key, v)], k) == (if k == key then Some(v) else Lookup(row, k))
    decreases |row|
  {
    var r := row + [(key, v)];
    if |row| > 0 {
      assert r[1..] == row[1..] + [(key, v)];
      if k != row[0].0 {
        LookupAppend(row[1..], key, v, k);
      }
    }
  }

  /** Overwriting twice under the same key keeps the second value only. */
  lemma PutTwice(row: Row, key: string, v: Value, w: Value)
    ensures Put(Put(row, key, v), key, w) == Put(row, key, w)
  {
    LookupPut(row, key, v);
    if Lookup(row, key).None? {
      var once := row + [(key, v)];
      assert Put(once, key, w) == Overwrite(once, key, w);
      assert Overwrite(once, key, w) == row + [(key, w)];
    }
  }

  // ===========================================================================
  // labels of the copies

  /** The label of the `j`-th candidate copy of an object labelled `o`: `o . "_" . j`. */
  function Label(o: string, j: nat): string {
    o + "_" + NatToString(j)
  }

  /** Different candidates of the same object never share a label. */
  lemma LabelInjective(o: string, j: nat, k: nat)
    requires Label(o, j) == Label(o, k)
    ensures j == k
  {
    assert Label(o, j)[|o| + 1..] == NatToString(j);
    assert Label(o, k)[|o| + 1..] == NatToString(k);
    NatToStringInjective(j, k);
  }

  /** The labels of candidates 1 .. j-1. */
  function Tried(o: string, j: nat): set<string> {
    set m | 1 <= m < j :: Label(o, m)
  }

  /** Trying candidate `j` adds its label to the tried ones; it was not among them. */
  lemma TriedNext(o: string, j: nat)
    requires j >= 1
    ensures Tried(o, j + 1) == Tried(o, j) + {Label(o, j)}
    ensures Label(o, j) !in Tried(o, j)
  {
    forall m | 1 <= m < j ensures Label(o, m) != Label(o, j) {
      if Label(o, m) == Label(o, j) {
        LabelInjective(o, m, j);
      }
    }
  }

  /** The row the copies start from: the source row with a non-null primary key removed. */
  function CopySource(obj: ConfigObject, source: Row): (r: Row)
    ensures !IsSet(r, obj.primaryKey)
    ensures forall k :: k != obj.primaryKey ==> Lookup(r, k) == Lookup(source, k)
  {
    if IsSet(source, obj.primaryKey) then Unset(source, obj.primaryKey) else source
  }

  /** The label of the source object when it has one (`isset($originalName)`). */
  function OriginalLabel(obj: ConfigObject, source: Row): (r: Option<string>)
    ensures r.Some? <==> IsSet(CopySource(obj, source), obj.uniqueLabelField)
    ensures r.Some? ==> Lookup(CopySource(obj, source), obj.uniqueLabelField) == Some(Text(r.value))
  {
    var p := CopySource(obj, source);
    if IsSet(p, obj.uniqueLabelField) then Some(Lookup(p, obj.uniqueLabelField).value.s) else None
  }

  /** `getIdByParameter` finds a row for the probe value: a null label never equals anything in SQL. */
  predicate LabelTaken(live: set<string>, probe: Option<Value>) {
    probe.Some? && probe.value.Text? && probe.value.s in live
  }

  /** The row of the `j`-th candidate copy: relabelled `label_j` when the object has a label. */
  function Candidate(obj: ConfigObject, source: Row, j: nat): (r: Row)
    ensures !IsSet(r, obj.primaryKey)
    ensures OriginalLabel(obj, source).Some? ==>
              Lookup(r, obj.uniqueLabelField) == Some(Text(Label(OriginalLabel(obj, source).value, j)))
    ensures OriginalLabel(obj, source).None? ==> r == CopySource(obj, source)
    ensures forall k :: k != obj.uniqueLabelField ==> Lookup(r, k) == Lookup(CopySource(obj, source), k)
  {
    var params := CopySource(obj, source);
    match OriginalLabel(obj, source)
    case None => params
    case Some(o) =>
      LookupPut(params, obj.uniqueLabelField, Text(Label(o, j)));
      Put(params, obj.uniqueLabelField, Text(Label(o, j)))
  }

  /** One relabelling step of the loop: `$sourceParams[label] = $originalName . "_" . $j` when both are set. */
  function Relabel(obj: ConfigObject, source: Row, current: Row, j: nat): Row {
    var original := Lookup(CopySource(obj, source), obj.uniqueLabelField);
    if IsSet(current, obj.uniqueLabelField) && original.Some? && original.value.Text? then
      Put(current, obj.uniqueLabelField, Text(Label(original.value.s, j)))
    else current
  }

  /** Relabelling the previous candidate, or the source at the first step, gives the next candidate. */
  lemma RelabelCandidate(obj: ConfigObject, source: Row, j: nat)
    requires j >= 1
    ensures Relabel(obj, source, if j == 1 then CopySource(obj, source) else Candidate(obj, source, j - 1), j)
            == Candidate(obj, source, j)
  {
    var params := CopySource(obj, source);
    var field := obj.uniqueLabelField;
    if OriginalLabel(obj, source).Some? && j > 1 {
      var o := OriginalLabel(obj, source).value;
      PutTwice(params, field, Text(Label(o, j - 1)), Text(Label(o, j)));
    }
  }

  /** The suffixes below `j` are exactly the candidates whose label was free. */
  predicate FreeExactly(o: string, labels: set<string>, suffixes: seq<nat>, j: nat) {
    forall m :: 1 <= m < j ==> (m in suffixes <==> Label(o, m) !in labels)
  }

  /** Moving past candidate `j`: it joins the suffixes exactly when its label is free. */
  lemma FreeExactlyStep(o: string, labels: set<string>, suffixes: seq<nat>, j: nat)
    requires FreeExactly(o, labels, suffixes, j)
    requires forall k :: 0 <= k < |suffixes| ==> suffixes[k] < j
    ensures Label(o, j) !in labels ==> FreeExactly(o, labels, suffixes + [j], j + 1)
    ensures Label(o, j) in labels ==> FreeExactly(o, labels, suffixes, j + 1)
  {
    assert j !in suffixes;
  }

  /** Adding the label of candidate `j` to the table leaves later candidates as they were. */
  lemma LiveStep(o: string, labels: set<string>, live: set<string>, j: nat)
    requires forall m :: m >= j ==> (Label(o, m) in live <==> Label(o, m) in labels)
    ensures forall m :: m >= j + 1 ==> (Label(o, m) in live + {Label(o, j)} <==> Label(o, m) in labels)
  {
    forall m | m >= j + 1 ensures Label(o, m) != Label(o, j) {
      if Label(o, m) == Label(o, j) {
        LabelInjective(o, m, j);
      }
    }
  }

  /** What the loop of `duplicate` keeps between iterations. */
  datatype DupState = DupState(current: Row, live: set<string>, copies: seq<Row>, suffixes: seq<nat>, i: int, j: nat)

  /** The label the candidates are built from, or "" for an object without a label. */
  function Stem(obj: ConfigObject, source: Row): string {
    if OriginalLabel(obj, source).Some? then OriginalLabel(obj, source).value else ""
  }

  /** The state before the first iteration. */
  function DupStart(obj: ConfigObject, source: Row, labels: set<string>): DupState {
    DupState(CopySource(obj, source), labels, [], [], 1, 1)
  }

  /**
   * One iteration of the loop of `duplicate`: relabel the row, ask for rows with
   * that label, and insert the row (moving on to the next copy) when there are none.
   */
  function Attempt(obj: ConfigObject, source: Row, st: DupState): DupState {
    var current := Relabel(obj, source, st.current, st.j);
    var probe := Lookup(current, obj.uniqueLabelField);
    if LabelTaken(st.live, probe) then st.(current := current, j := st.j + 1)
    else
      DupState(current,
               if probe.Some? && probe.value.Text? then st.live + {probe.value.s} else st.live,
               st.copies + [current], st.suffixes + [st.j], st.i + 1, st.j + 1)
  }

  /** The part of the loop invariant about the counters, the suffixes and the rows. */
  predicate DupShape(obj: ConfigObject, source: Row, entries: int, st: DupState) {
    && 1 <= st.i && 1 <= st.j
    && |st.copies| == |st.suffixes| == st.i - 1
    && st.i <= (if entries >= 1 then entries + 1 else 1)
    && (forall k :: 0 <= k < |st.suffixes| ==> 1 <= st.suffixes[k] < st.j)
    && (forall k, m :: 0 <= k < m < |st.suffixes| ==> st.suffixes[k] < st.suffixes[m])
    && st.current == (if st.j == 1 then CopySource(obj, source) else Candidate(obj, source, st.j - 1))
    && (forall k :: 0 <= k < |st.copies| ==> st.copies[k] == Candidate(obj, source, st.suffixes[k]))
  }

  /** The part of the loop invariant about the labels in the table and the suffixes chosen. */
  ghost predicate DupLabels(obj: ConfigObject, source: Row, labels: set<string>, st: DupState) {
    var o := Stem(obj, source);
    if OriginalLabel(obj, source).None? then
      && st.live == labels && st.j == st.i
      && (forall k :: 0 <= k < |st.suffixes| ==> st.suffixes[k] == k + 1)
    else
      && (forall m :: m >= st.j ==> (Label(o, m) in st.live <==> Label(o, m) in labels))
      && FreeExactly(o, labels, st.suffixes, st.j)
  }

  /** Each iteration relabels the previous candidate into the next one. */
  lemma AttemptRow(obj: ConfigObject, source: Row, st: DupState)
    requires st.j >= 1
    requires st.current == (if st.j == 1 then CopySource(obj, source) else Candidate(obj, source, st.j - 1))
    ensures Attempt(obj, source, st).current == Candidate(obj, source, st.j)
    ensures Attempt(obj, source, st).j == st.j + 1
  {
    RelabelCandidate(obj, source, st.j);
  }

  /** An iteration keeps the counters, suffixes and rows in shape. */
  lemma AttemptKeepsShape(obj: ConfigObject, source: Row, entries: int, st: DupState)
    requires DupShape(obj, source, entries, st) && st.i <= entries
    ensures DupShape(obj, source, entries, Attempt(obj, source, st))
    ensures Attempt(obj, source, st).i == st.i + 1 || Attempt(obj, source, st).i == st.i
  {
    AttemptRow(obj, source, st);
  }

  /** An iteration keeps the labels invariant; it stays on the same copy only past a taken label. */
  lemma AttemptKeepsLabels(obj: ConfigObject, source: Row, labels: set<string>, entries: int, st: DupState)
    requires DupShape(obj, source, entries, st) && DupLabels(obj, source, labels, st)
    ensures DupLabels(obj, source, labels, Attempt(obj, source, st))
    ensures Attempt(obj, source, st).i == st.i ==>
              labels - Tried(Stem(obj, source), st.j + 1) < labels - Tried(Stem(obj, source), st.j)
  {
    var o := Stem(obj, source);
    var j := st.j;
    AttemptRow(obj, source, st);
    TriedNext(o, j);
    if OriginalLabel(obj, source).Some? {
      FreeExactlyStep(o, labels, st.suffixes, j);
      LiveStep(o, labels, st.live, j);
    }
  }

  /**
   * `duplicate`: inserts `entries` copies of the source row. A labelled object is
   * copied under `label_j` for the smallest free suffixes `j`, in increasing order;
   * every candidate passed over was already taken. An object without a label is
   * copied unchanged. `labels` holds the unique labels already in the table.
   */
  method Duplicate(obj: ConfigObject, source: Row, entries: int, labels: set<string>)
    returns (copies: seq<Row>, suffixes: seq<nat>)
    ensures |copies| == |suffixes| == (if entries >= 1 then entries else 0)
    ensures forall k :: 0 <= k < |suffixes| ==> suffixes[k] >= 1
    ensures forall k, m :: 0 <= k < m < |suffixes| ==> suffixes[k] < suffixes[m]
    ensures forall k :: 0 <= k < |copies| ==> copies[k] == Candidate(obj, source, suffixes[k])
    ensures OriginalLabel(obj, source).None? ==> forall k :: 0 <= k < |suffixes| ==> suffixes[k] == k + 1
    ensures OriginalLabel(obj, source).Some? ==>
              forall k, m :: 0 <= k < |suffixes| && 1 <= m <= suffixes[k] ==>
                (m in suffixes <==> Label(OriginalLabel(obj, source).value, m) !in labels)
  {
    var st := DupStart(obj, source, labels);
    while st.i <= entries
      invariant DupShape(obj, source, entries, st) && DupLabels(obj, source, labels, st)
      decreases (if st.i <= entries then entries - st.i + 1 else 0), labels - Tried(Stem(obj, source), st.j)
    {
      AttemptKeepsShape(obj, source, entries, st);
      AttemptKeepsLabels(obj, source, labels, entries, st);
      AttemptRow(obj, source, st);
      st := Attempt(obj, source, st);
    }
    copies, suffixes := st.copies, st.suffixes;
  }
}
