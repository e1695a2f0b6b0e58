/**
 * The mediator's schema typings: a tree of records and fields, a traversal
 * that reports each node to a schema writer, and a registry of typings
 * keyed by name and direction. The writer is outside the model; the
 * traversal is the sequence of calls it receives.
 */
module Typing {
  /** A schema node. A record's field list carries its own `RecordEnd`
      marker; a root names the schema and its children are not visited. */
  datatype Schema =
    | Root(name: string, children: seq<Schema>)
    | Record(name: string, fields: seq<Schema>)
    | Field(name: string, typing: string)
    | RecordEnd

  datatype TypingKind = In | Out

  datatype TypingId = TypingId(name: string, kind: TypingKind)

  datatype Typing = Typing(schema: Schema)

  /** One call on the schema writer; records and fields are passed the node
      itself. */
  datatype WriterEvent =
    | WriteRecord(name: string, record: Schema)
    | WriteField(name: string, field: Schema)
    | EndRecord

  /** The call a node reports first. */
  function EventFor(s: Schema): WriterEvent
  {
    match s
    case Root(name, _) => WriteRecord(name, s)
    case Record(name, _) => WriteRecord(name, s)
    case Field(name, _) => WriteField(name, s)
    case RecordEnd => EndRecord
  }

  /** The node a first call was made for. */
  function NodeOf(e: WriterEvent): Schema
  {
    match e
    case WriteRecord(_, record) => record
    case WriteField(_, field) => field
    case EndRecord => RecordEnd
  }

  /** The nodes the traversal visits: a root or a field alone, a record with
      everything under its fields. */
  function Visited(s: Schema): nat
  {
    match s
    case Record(_, fields) => 1 + VisitedEach(fields)
    case _ => 1
  }

  function VisitedEach(fs: seq<Schema>): nat
  {
    if fs == [] then 0 else Visited(fs[0]) + VisitedEach(fs[1..])
  }

  /** The calls `write` makes on the writer for a node: one per visited
      node, the node's own first. */
  function Write(s: Schema): (r: seq<WriterEvent>)
    ensures |r| == Visited(s)
    ensures r != [] && r[0] == EventFor(s) && NodeOf(r[0]) == s
  {
    match s
    case Root(name, _) => [WriteRecord(name, s)]
    case Record(name, fields) => [WriteRecord(name, s)] + WriteEach(fields)
    case Field(name, _) => [WriteField(name, s)]
    case RecordEnd => [EndRecord]
  }

  /** The calls for a list of fields, in order. */
  function WriteEach(fs: seq<Schema>): (r: seq<WriterEvent>)
    ensures |r| == VisitedEach(fs)
  {
    if fs == [] then [] else Write(fs[0]) + WriteEach(fs[1..])
  }

  /** `adapt` writes the typing's schema: one call per visited node, the
      schema's own call first, and for a closed schema every record it
      starts is ended. */
  function Adapt(t: Typing): (r: seq<WriterEvent>)
    ensures |r| == Visited(t.schema)
    ensures r != [] && r[0] == EventFor(t.schema) && NodeOf(r[0]) == t.schema
    ensures Closed(t.schema) ==> Opens(r) == Ends(r)
  {
    assert Closed(t.schema) ==> Opens(Write(t.schema)) == Ends(Write(t.schema)) by {
      if Closed(t.schema) {
        ClosedTraceBalanced(t.schema);
      }
    }
    Write(t.schema)
  }

  /** The calls for two field lists are those for each, one after the other. */
  lemma {:induction false} WriteEachAppend(a: seq<Schema>, b: seq<Schema>)
    ensures WriteEach(a + b) == WriteEach(a) + WriteEach(b)
  {
    if a != [] {
      assert (a + b)[0] == a[0];
      assert (a + b)[1..] == a[1..] + b;
      WriteEachAppend(a[1..], b);
    } else {
      assert a + b == b;
    }
  }

  /** The `write_record` calls a trace makes for records (not roots). */
  function Opens(t: seq<WriterEvent>): nat
  {
    if t == [] then 0
    else (if t[0].WriteRecord? && t[0].record.Record? then 1 else 0) + Opens(t[1..])
  }

  /** The `end_record` calls of a trace. */
  function Ends(t: seq<WriterEvent>): nat
  {
    if t == [] then 0 else (if t[0] == EndRecord then 1 else 0) + Ends(t[1..])
  }

  lemma {:induction false} CountsAppend(a: seq<WriterEvent>, b: seq<WriterEvent>)
    ensures Opens(a + b) == Opens(a) + Opens(b)
    ensures Ends(a + b) == Ends(a) + Ends(b)
  {
    if a != [] {
      assert (a + b)[0] == a[0];
      assert (a + b)[1..] == a[1..] + b;
      CountsAppend(a[1..], b);
    } else {
      assert a + b == b;
    }
  }

  /** A schema whose every record closes its own field list: the list ends
      with one `RecordEnd` and has no other; a stray `RecordEnd` is not
      closed. */
  predicate Closed(s: Schema)
  {
    match s
    case Root(_, _) => true
    case Field(_, _) => true
    case RecordEnd => false
    case Record(_, fields) =>
      |fields| > 0 && fields[|fields| - 1] == RecordEnd && ClosedEach(fields[..|fields| - 1])
  }

  predicate ClosedEach(fs: seq<Schema>)
  {
    forall i :: 0 <= i < |fs| ==> Closed(fs[i])
  }

  /** A closed schema makes the writer end every record it starts. */
  lemma {:induction false} ClosedTraceBalanced(s: Schema)
    requires Closed(s)
    ensures Opens(Write(s)) == Ends(Write(s))
  {
    match s
    case Root(name, _) =>
      assert Write(s)[1..] == [];
    case Field(name, _) =>
      assert Write(s)[1..] == [];
    case Record(name, fields) =>
      var body := fields[..|fields| - 1];
      assert fields == body + [RecordEnd];
      WriteEachAppend(body, [RecordEnd]);
      assert WriteEach([RecordEnd]) == [EndRecord] by {
        assert [RecordEnd][1..] == [];
      }
      ClosedEachBalanced(body);
      assert Write(s) == [WriteRecord(name, s)] + (WriteEach(body) + [EndRecord]);
      CountsAppend([WriteRecord(name, s)], WriteEach(body) + [EndRecord]);
      CountsAppend(WriteEach(body), [EndRecord]);
      assert Opens([WriteRecord(name, s)]) == 1 by {
        assert [WriteRecord(name, s)][1..] == [];
      }
      assert Ends([EndRecord]) == 1 && Opens([EndRecord]) == 0 by {
        assert [EndRecord][1..] == [];
      }
  }

  lemma {:induction false} ClosedEachBalanced(fs: seq<Schema>)
    requires ClosedEach(fs)
    ensures Opens(WriteEach(fs)) == Ends(WriteEach(fs))
    decreases fs, 1
  {
    if fs != [] {
      assert Closed(fs[0]);
      ClosedTraceBalanced(fs[0]);
      assert ClosedEach(fs[1..]) by {
        forall i | 0 <= i < |fs[1..]|
          ensures Closed(fs[1..][i])
        {
          assert fs[1..][i] == fs[i + 1];
        }
      }
      ClosedEachBalanced(fs[1..]);
      CountsAppend(Write(fs[0]), WriteEach(fs[1..]));
    }
  }

  /** The registry's map after `add_type(name, kind, schema)`. */
  function Registered(m: map<TypingId, Typing>, name: string, kind: TypingKind, schema: Schema): map<TypingId, Typing>
  {
    m[TypingId(name, kind) := Typing(schema)]
  }

  /** The registry of typings, keyed by name and direction. */
  class TypingRegistry {
    var typings: map<TypingId, Typing>

    constructor ()
      ensures typings == map[]
    {
      typings := map[];
    }

    /** Registers `schema` under (`name`, `kind`), replacing what was there;
        every other key keeps its typing. */
    method AddType(name: string, kind: TypingKind, schema: Schema)
      modifies this
      ensures typings == Registered(old(typings), name, kind, schema)
      ensures TypingId(name, kind) in typings && typings[TypingId(name, kind)].schema == schema
      ensures forall id :: id in old(typings) && id != TypingId(name, kind) ==> id in typings && typings[id] == old(typings)[id]
      ensures typings.Keys == old(typings).Keys + {TypingId(name, kind)}
    {
      typings := typings[TypingId(name, kind) := Typing(schema)];
    }
  }

  /** A name registered by `add_type` for input and then for output holds
      two typings: the kind is part of the key. */
  lemma KindsAreSeparateKeys(m: map<TypingId, Typing>, name: string, input: Schema, output: Schema)
    ensures var r := Registered(Registered(m, name, In, input), name, Out, output);
      r[TypingId(name, In)].schema == input && r[TypingId(name, Out)].schema == output
  {
  }
}
