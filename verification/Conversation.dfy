/** One Investigation's conversation: idempotent groups, dense ordinals, chunked content, cursor pages. */
module Conversation {
  import opened Wrappers
  import opened Utf8Split

  datatype Role = User | System | Agent

  datatype Entry = Entry(role: Role, content: seq<Byte>)

  /** A stored message as the conversation shows it. */
  datatype Item = Item(key: string, role: Role, content: seq<Byte>)

  type Log = seq<Item>

  function ItemsOf(key: string, entries: seq<Entry>): Log {
    seq(|entries|, k requires 0 <= k < |entries| => Item(key, entries[k].role, entries[k].content))
  }

  function Group(log: Log, key: string): Log {
    if log == [] then []
    else Group(log[..|log| - 1], key) + if log[|log| - 1].key == key then [log[|log| - 1]] else []
  }

  /** No message is stored without content, so every message can be read back. */
  predicate Readable(log: Log) {
    forall k :: 0 <= k < |log| ==> log[k].content != []
  }

  predicate RolesMatch(group: Log, entries: seq<Entry>) {
    |group| == |entries| && forall k :: 0 <= k < |entries| ==> group[k].role == entries[k].role
  }

  /** The unique index on (investigation, idempotency key, role). */
  predicate RolesDistinct(entries: seq<Entry>) {
    forall i, j :: 0 <= i < j < |entries| ==> entries[i].role != entries[j].role
  }

  /** persistConversationGroup: the log afterwards, and the group, or None for an error. */
  function Persist(log: Log, key: string, entries: seq<Entry>): (Log, Option<Log>) {
    var group := Group(log, key);
    if !Readable(group) then (log, None)
    else if group != [] then (log, if RolesMatch(group, entries) then Some(group) else None)
    else if !RolesDistinct(entries) then (log, None)
    else (log + ItemsOf(key, entries), Some(ItemsOf(key, entries)))
  }

  datatype Page = Page(items: Log, next: Option<nat>)

  /** LoadConversationPage: at most pageSize messages after the cursor's ordinal; an error if one has no content. */
  function LoadPage(log: Log, cursor: Option<nat>, pageSize: nat): Option<Page> {
    var first := if cursor.None? then 0 else cursor.value + 1;
    var rest := if first <= |log| then log[first..] else [];
    var items := if |rest| > pageSize then rest[..pageSize] else rest;
    if !Readable(items) then None
    else Some(Page(items, if |rest| > pageSize && pageSize > 0 then Some(first + pageSize - 1) else None))
  }

  // ----- idempotency -----

  /** A key's messages stand together, from position `at`, and nowhere else. */
  predicate OwnsBlock(log: Log, key: string, at: nat, block: Log) {
    && at + |block| <= |log| && log[at..at + |block|] == block && block != []
    && (forall k :: 0 <= k < |log| ==> (log[k].key == key <==> at <= k < at + |block|))
  }

  lemma {:induction false} GroupOfNone(log: Log, key: string)
    ensures Group(log, key) == [] <==> forall k :: 0 <= k < |log| ==> log[k].key != key
  {
    if log != [] {
      var n := |log| - 1;
      GroupOfNone(log[..n], key);
      assert forall k :: 0 <= k < n ==> log[..n][k] == log[k];
    }
  }

  lemma {:induction false} GroupOfBlock(log: Log, key: string, at: nat, block: Log)
    requires OwnsBlock(log, key, at, block)
    ensures Group(log, key) == block
    decreases |log|
  {
    var n := |log| - 1;
    if at + |block| <= n {
      assert log[..n][at..at + |block|] == block;
      GroupOfBlock(log[..n], key, at, block);
    } else if |block| == 1 {
      GroupOfNone(log[..n], key);
      assert block == [log[n]];
    } else {
      var front := block[..|block| - 1];
      assert log[..n][at..at + |front|] == front;
      GroupOfBlock(log[..n], key, at, front);
      assert block == front + [log[n]];
    }
  }

  /** The first group under a key takes a block of its own at the end of the log. */
  lemma FirstGroupOwnsBlock(log: Log, key: string, entries: seq<Entry>)
    requires Group(log, key) == [] && entries != [] && RolesDistinct(entries)
    ensures OwnsBlock(Persist(log, key, entries).0, key, |log|, ItemsOf(key, entries))
    ensures Persist(log, key, entries).1 == Some(ItemsOf(key, entries))
  {
    GroupOfNone(log, key);
  }

  /** Whatever is persisted later, under any key, a block keeps its place and contents, and replaying its key
      changes nothing, and returns it exactly when it is readable and the roles are the same. */
  lemma BlockIsKept(log: Log, key: string, at: nat, block: Log, other: string, entries: seq<Entry>)
    requires OwnsBlock(log, key, at, block)
    ensures OwnsBlock(Persist(log, other, entries).0, key, at, block)
    ensures other == key ==> Persist(log, other, entries).0 == log
    ensures other == key ==> Persist(log, other, entries).1 == if Readable(block) && RolesMatch(block, entries) then Some(block) else None
  {
    GroupOfBlock(log, key, at, block);
  }

  /** A key used for the first time: its messages are appended one for one, each role with its own content, and are the
      answer; unless a role occurs twice, which writes nothing. */
  lemma NewGroupIsStored(log: Log, key: string, entries: seq<Entry>)
    requires forall k :: 0 <= k < |log| ==> log[k].key != key
    ensures var (after, answer) := Persist(log, key, entries);
      if exists i, j :: 0 <= i < j < |entries| && entries[i].role == entries[j].role then after == log && answer == None
      else
        var stored := after[|log|..];
        && log <= after && |stored| == |entries| && answer == Some(stored)
        && forall k :: 0 <= k < |entries| ==> stored[k].key == key && stored[k].role == entries[k].role && stored[k].content == entries[k].content
  {
    GroupOfNone(log, key);
  }

  /** A key used before: nothing is written, and the stored messages are the answer when none of them is empty and the
      roles asked for are theirs, one for one. */
  lemma ReplayAnswersTheBlock(log: Log, key: string, at: nat, block: Log, entries: seq<Entry>)
    requires OwnsBlock(log, key, at, block)
    ensures var (after, answer) := Persist(log, key, entries);
      && after == log && (answer.Some? ==> answer.value == block)
      && (answer.Some? <==> (|block| == |entries| && forall k :: 0 <= k < |block| ==> |block[k].content| > 0 && entries[k].role == block[k].role))
  {
    GroupOfBlock(log, key, at, block);
  }

  datatype Message = Message(key: string, entries: seq<Entry>)

  /** The conversation after a history of persisted groups. */
  function PersistAll(history: seq<Message>): Log {
    if history == [] then []
    else
      var last := history[|history| - 1];
      Persist(PersistAll(history[..|history| - 1]), last.key, last.entries).0
  }

  ghost predicate OwnsItsGroup(log: Log, key: string) {
    Group(log, key) != [] ==> exists at: nat :: OwnsBlock(log, key, at, Group(log, key))
  }

  lemma PersistKeepsBlocks(log: Log, key: string, m: Message)
    requires OwnsItsGroup(log, key)
    ensures OwnsItsGroup(Persist(log, m.key, m.entries).0, key)
  {
    var after := Persist(log, m.key, m.entries).0;
    if Group(log, key) != [] {
      var at: nat :| OwnsBlock(log, key, at, Group(log, key));
      BlockIsKept(log, key, at, Group(log, key), m.key, m.entries);
      GroupOfBlock(after, key, at, Group(log, key));
    } else if m.key == key && m.entries != [] && RolesDistinct(m.entries) {
      FirstGroupOwnsBlock(log, key, m.entries);
      GroupOfBlock(after, key, |log|, ItemsOf(key, m.entries));
    } else {
      GroupOfNone(log, key);
      GroupOfNone(after, key);
    }
  }

  /** Over every history each key's messages are one contiguous block, and nothing later moves or changes it. */
  lemma {:induction false} EveryKeyOwnsItsBlock(history: seq<Message>, key: string)
    ensures OwnsItsGroup(PersistAll(history), key)
  {
    if history != [] {
      EveryKeyOwnsItsBlock(history[..|history| - 1], key);
      PersistKeepsBlocks(PersistAll(history[..|history| - 1]), key, history[|history| - 1]);
    }
  }

  // ----- empty contents -----

  /** A new group leaves the conversation readable iff none of its messages is empty. */
  lemma ReadableIffNoneEmpty(log: Log, key: string, entries: seq<Entry>)
    requires Readable(log) && Group(log, key) == [] && entries != [] && RolesDistinct(entries)
    ensures Readable(Persist(log, key, entries).0) <==> forall k :: 0 <= k < |entries| ==> entries[k].content != []
  {
    var after := Persist(log, key, entries).0;
    forall k | 0 <= k < |entries| ensures after[|log| + k].content == entries[k].content {
    }
    assert forall k :: 0 <= k < |log| ==> after[k] == log[k];
  }

  /** It happens: an empty answer is accepted, and then the page that holds it cannot be read. */
  lemma EmptyAnswerHidesItsPage(log: Log, key: string, question: seq<Byte>, pageSize: nat)
    requires Readable(log) && Group(log, key) == [] && pageSize >= |log| + 2
    ensures var entries := [Entry(User, question), Entry(Agent, [])];
      Persist(log, key, entries).1.Some? && LoadPage(Persist(log, key, entries).0, None, pageSize) == None
  {
    var entries := [Entry(User, question), Entry(Agent, [])];
    var after := Persist(log, key, entries).0;
    assert after[|log| + 1].content == [] && after[0..] == after;
  }

  // ----- walking by cursor while messages arrive -----

  datatype WalkStep = Arrive(key: string, entries: seq<Entry>) | Fetch

  /** What a reader has, and where it will continue; `finished` when the last page had no next cursor. */
  datatype Walk = Walk(log: Log, got: Log, cursor: Option<nat>, finished: bool)

  function WalkOn(w: Walk, step: WalkStep, pageSize: nat): Walk {
    match step
    case Arrive(key, entries) => w.(log := Persist(w.log, key, entries).0, finished := w.finished)
    case Fetch =>
      if w.finished then w
      else
        match LoadPage(w.log, w.cursor, pageSize)
        case None => w
        case Some(page) => w.(got := w.got + page.items, cursor := page.next, finished := page.next.None?)
  }

  function WalkAll(w: Walk, steps: seq<WalkStep>, pageSize: nat): Walk {
    if steps == [] then w else WalkOn(WalkAll(w, steps[..|steps| - 1], pageSize), steps[|steps| - 1], pageSize)
  }

  predicate GapFree(w: Walk) {
    && w.got <= w.log
    && (!w.finished ==> |w.got| == if w.cursor.None? then 0 else w.cursor.value + 1)
  }

  /** A page is a slice of the log, with a cursor when messages remain. */
  lemma PageOfSlice(log: Log, cursor: Option<nat>, pageSize: nat, from: nat, to: nat)
    requires pageSize >= 1
    requires var first := if cursor.None? then 0 else cursor.value + 1; from == if first <= |log| then first else |log|
    requires to == if |log| - from > pageSize then from + pageSize else |log|
    ensures LoadPage(log, cursor, pageSize) ==
      if Readable(log[from..to]) then Some(Page(log[from..to], if to < |log| then Some(to - 1) else None)) else None
  {
    var rest := log[from..];
    assert (if |rest| > pageSize then rest[..pageSize] else rest) == log[from..to];
    hide Readable;
  }

  /** What a fetch adds: the next page's worth of messages, unless one of them is unreadable; it finishes iff nothing
      is left behind them. */
  lemma WalkStepIsGapFree(w: Walk, step: WalkStep, pageSize: nat)
    requires GapFree(w) && pageSize >= 1
    ensures GapFree(WalkOn(w, step, pageSize)) && w.log <= WalkOn(w, step, pageSize).log
    ensures step.Fetch? && !w.finished ==>
      var w' := WalkOn(w, step, pageSize);
      var to := if |w.log| - |w.got| > pageSize then |w.got| + pageSize else |w.log|;
      if Readable(w.log[|w.got|..to]) then w'.got == w.log[..to] && (w'.finished <==> to == |w.log|) else w' == w
  {
    if step.Fetch? && !w.finished {
      var from := |w.got|;
      var to := if |w.log| - from > pageSize then from + pageSize else |w.log|;
      PageOfSlice(w.log, w.cursor, pageSize, from, to);
      hide LoadPage, Readable;
      assert w.log[..from] == w.got && w.got + w.log[from..to] == w.log[..to];
    } else {
      hide LoadPage, Group, Readable;
    }
  }

  /** However pages and arrivals interleave, the reader holds a prefix of the conversation: in order, no gap, no
      repetition. */
  lemma {:induction false} WalkIsGapFree(log: Log, steps: seq<WalkStep>, pageSize: nat)
    requires pageSize >= 1
    ensures GapFree(WalkAll(Walk(log, [], None, false), steps, pageSize))
  {
    if steps != [] {
      WalkIsGapFree(log, steps[..|steps| - 1], pageSize);
      WalkStepIsGapFree(WalkAll(Walk(log, [], None, false), steps[..|steps| - 1], pageSize), steps[|steps| - 1], pageSize);
    }
  }

  /** A full page for every fetch. */
  function FullPages(steps: seq<WalkStep>, pageSize: nat): nat {
    if steps == [] then 0 else FullPages(steps[..|steps| - 1], pageSize) + if steps[|steps| - 1].Fetch? then pageSize else 0
  }

  /** On a readable conversation a fetch adds a full page, or finishes. */
  lemma StepAdvances(w: Walk, step: WalkStep, pageSize: nat)
    requires GapFree(w) && pageSize >= 1 && Readable(WalkOn(w, step, pageSize).log)
    ensures Readable(w.log)
    ensures var w' := WalkOn(w, step, pageSize); w'.finished || (!w.finished && |w'.got| == |w.got| + if step.Fetch? then pageSize else 0)
  {
    WalkStepIsGapFree(w, step, pageSize);
    var w' := WalkOn(w, step, pageSize);
    forall k | 0 <= k < |w.log| ensures w.log[k].content != [] { assert w.log[k] == w'.log[k]; }
    hide LoadPage, Persist;
  }

  /** Progress on a readable conversation: every fetch adds a full page or finishes with all there is, so the walk
      finishes within one fetch per page. */
  lemma {:induction false} WalkAdvances(log: Log, steps: seq<WalkStep>, pageSize: nat)
    requires pageSize >= 1 && Readable(WalkAll(Walk(log, [], None, false), steps, pageSize).log)
    ensures var w := WalkAll(Walk(log, [], None, false), steps, pageSize);
      w.finished || |w.got| == FullPages(steps, pageSize)
  {
    if steps != [] {
      var n := |steps| - 1;
      var w := WalkAll(Walk(log, [], None, false), steps[..n], pageSize);
      hide WalkOn, GapFree, Readable;
      WalkIsGapFree(log, steps[..n], pageSize);
      StepAdvances(w, steps[n], pageSize);
      WalkAdvances(log, steps[..n], pageSize);
    }
  }

  // ----- the tables -----

  datatype Record = Record(id: string, role: Role, key: string, ordinal: nat)

  type Chunks = map<string, seq<seq<Byte>>>

  /** Every record has its chunks, and no chunk is empty. */
  predicate Backed(records: seq<Record>, chunks: Chunks) {
    && (forall r :: r in records ==> r.id in chunks)
    && (forall id :: id in chunks ==> forall k :: 0 <= k < |chunks[id]| ==> chunks[id][k] != [])
  }

  function ItemOf(r: Record, chunks: Chunks): Item
    requires r.id in chunks
  {
    Item(r.key, r.role, Join(chunks[r.id]))
  }

  function View(records: seq<Record>, chunks: Chunks): Log
    requires Backed(records, chunks)
  {
    if records == [] then []
    else View(records[..|records| - 1], chunks) + [ItemOf(records[|records| - 1], chunks)]
  }

  lemma {:induction false} ViewAt(records: seq<Record>, chunks: Chunks)
    requires Backed(records, chunks)
    ensures |View(records, chunks)| == |records| && forall k :: 0 <= k < |records| ==> View(records, chunks)[k] == ItemOf(records[k], chunks)
  {
    if records != [] { ViewAt(records[..|records| - 1], chunks); }
  }

  /** One row more than a page, cut back to the page, is the stretch from where it starts. */
  lemma TakenIsStretch<T>(rows: seq<T>, start: nat, pageSize: nat)
    requires start <= |rows|
    ensures |rows| - start > pageSize + 1 ==> rows[start..start + pageSize + 1][..pageSize] == rows[start..start + pageSize]
    ensures |rows| - start == pageSize + 1 ==> rows[start..][..pageSize] == rows[start..start + pageSize]
    ensures rows[start..] == rows[start..|rows|]
  {
  }

  lemma ViewSlice(records: seq<Record>, chunks: Chunks, from: nat, to: nat)
    requires Backed(records, chunks) && from <= to <= |records|
    ensures Backed(records[from..to], chunks) && |View(records, chunks)| == |records| && View(records[from..to], chunks) == View(records, chunks)[from..to]
  {
    ViewAt(records, chunks);
    ViewAt(records[from..to], chunks);
  }

  lemma {:induction false} ViewGrows(records: seq<Record>, chunks: Chunks, id: string, pieces: seq<seq<Byte>>)
    requires Backed(records, chunks) && id !in chunks && forall k :: 0 <= k < |pieces| ==> pieces[k] != []
    ensures Backed(records, chunks[id := pieces]) && View(records, chunks[id := pieces]) == View(records, chunks)
  {
    if records != [] { ViewGrows(records[..|records| - 1], chunks, id, pieces); }
  }

  lemma {:induction false} JoinEmpty(chunks: seq<seq<Byte>>)
    requires forall k :: 0 <= k < |chunks| ==> chunks[k] != []
    ensures Join(chunks) == [] <==> chunks == []
  {
  }

  /** The records under a key, in order. */
  function Under(records: seq<Record>, key: string): seq<Record> {
    if records == [] then []
    else Under(records[..|records| - 1], key) + if records[|records| - 1].key == key then [records[|records| - 1]] else []
  }

  lemma {:induction false} UnderIsGroup(records: seq<Record>, chunks: Chunks, key: string)
    requires Backed(records, chunks)
    ensures Backed(Under(records, key), chunks) && View(Under(records, key), chunks) == Group(View(records, chunks), key)
  {
    if records != [] {
      var n := |records| - 1;
      var last, u := records[n], Under(records[..n], key);
      UnderIsGroup(records[..n], chunks, key);
      assert last in records && last.id in chunks;
      GroupSnoc(View(records[..n], chunks), ItemOf(last, chunks), key);
      ViewSnoc(records[..n], chunks, last);
      ViewSnoc(u, chunks, last);
      assert records == records[..n] + [last];
      assert Under(records, key) == if last.key == key then u + [last] else u;
      hide View, Group, Under;
    }
  }

  lemma ViewSnoc(records: seq<Record>, chunks: Chunks, last: Record)
    requires Backed(records, chunks) && last.id in chunks
    ensures Backed(records + [last], chunks) && View(records + [last], chunks) == View(records, chunks) + [ItemOf(last, chunks)]
  {
    assert (records + [last])[..|records|] == records;
  }

  lemma GroupSnoc(log: Log, item: Item, key: string)
    ensures Group(log + [item], key) == Group(log, key) + if item.key == key then [item] else []
  {
    assert (log + [item])[..|log|] == log;
  }

  /** The strings.Builder of one message. */
  method Concatenate(chunks: seq<seq<Byte>>) returns (content: seq<Byte>)
    ensures content == Join(chunks)
  {
    content := [];
    for k := 0 to |chunks|
      invariant content == Join(chunks[..k])
    {
      assert chunks[..k + 1][..k] == chunks[..k];
      content := content + chunks[k];
    }
    assert chunks[..|chunks|] == chunks;
  }

  /** conversation_messages and conversation_chunks of one Investigation; records in ordinal order. */
  class ConversationTables {
    var records: seq<Record>
    var chunks: Chunks

    /** Ordinals are dense from 0. */
    ghost predicate Valid()
      reads this
    {
      Backed(records, chunks) && forall k :: 0 <= k < |records| ==> records[k].ordinal == k
    }

    ghost function Contents(): Log
      requires Valid()
      reads this
    {
      View(records, chunks)
    }

    constructor ()
      ensures Valid() && Contents() == [] && chunks == map[]
    {
      records, chunks := [], map[];
    }

    /** nextConversationOrdinal: the maximum plus one, or 0. */
    method NextOrdinal() returns (next: nat)
      requires Valid()
      ensures next == |records|
    {
      next := 0;
      for k := 0 to |records|
        invariant next == k
      {
        if records[k].ordinal + 1 > next {
          next := records[k].ordinal + 1;
        }
      }
    }

    /** One message and its chunks. */
    method AppendEntry(id: string, key: string, entry: Entry, ordinal: nat)
      requires Valid() && ordinal == |records| && id !in chunks && Splittable(entry.content)
      modifies this
      ensures Valid() && |records| == old(|records|) + 1 && Contents() == old(Contents()) + [Item(key, entry.role, entry.content)]
      ensures chunks.Keys == old(chunks.Keys) + {id}
    {
      var pieces := SplitContent(entry.content);
      ViewGrows(records, chunks, id, pieces);
      var record := Record(id, entry.role, key, ordinal);
      assert (records + [record])[..|records|] == records;
      records := records + [record];
      chunks := chunks[id := pieces];
    }

    /** appendConversationEntries. */
    method AppendEntries(ids: seq<string>, key: string, entries: seq<Entry>)
      requires Valid() && |ids| == |entries| && (forall k :: 0 <= k < |ids| ==> ids[k] !in chunks)
      requires forall i, j :: 0 <= i < j < |ids| ==> ids[i] != ids[j]
      requires forall k :: 0 <= k < |entries| ==> Splittable(entries[k].content)
      modifies this
      ensures Valid() && Contents() == old(Contents()) + ItemsOf(key, entries)
    {
      var firstOrdinal := NextOrdinal();
      ghost var items := ItemsOf(key, entries);
      for offset := 0 to |entries|
        invariant Valid() && |records| == firstOrdinal + offset
        invariant Contents() == old(Contents()) + items[..offset]
        invariant forall k :: offset <= k < |ids| ==> ids[k] !in chunks
      {
        AppendEntry(ids[offset], key, entries[offset], firstOrdinal + offset);
        assert items[..offset + 1] == items[..offset] + [items[offset]];
      }
      assert items[..|entries|] == items;
    }

    /** assembleConversationMessages: an error exactly when some message has no chunk. */
    method Assemble(selected: seq<Record>) returns (items: Option<Log>)
      requires Valid() && Backed(selected, chunks)
      ensures items == if Readable(View(selected, chunks)) then Some(View(selected, chunks)) else None
    {
      ViewAt(selected, chunks);
      var result: Log := [];
      for k := 0 to |selected|
        invariant result == View(selected, chunks)[..k] && Readable(result)
      {
        var record := selected[k];
        assert record in selected;
        JoinEmpty(chunks[record.id]);
        if chunks[record.id] == [] {
          assert View(selected, chunks)[k].content == [];
          return None;
        }
        var content := Concatenate(chunks[record.id]);
        result := result + [Item(record.key, record.role, content)];
      }
      assert View(selected, chunks)[..|selected|] == View(selected, chunks);
      items := Some(result);
    }

    method SelectKey(key: string) returns (existing: seq<Record>)
      ensures existing == Under(records, key)
    {
      existing := [];
      for k := 0 to |records|
        invariant existing == Under(records[..k], key)
      {
        assert records[..k + 1][..k] == records[..k];
        if records[k].key == key {
          existing := existing + [records[k]];
        }
      }
      assert records[..|records|] == records;
    }

    /** persistConversationGroup. Ids are fresh; a group that breaks the unique index is rolled back whole. */
    method PersistGroup(ids: seq<string>, key: string, entries: seq<Entry>) returns (result: Option<Log>)
      requires Valid() && |ids| == |entries| && (forall k :: 0 <= k < |ids| ==> ids[k] !in chunks)
      requires forall i, j :: 0 <= i < j < |ids| ==> ids[i] != ids[j]
      requires forall k :: 0 <= k < |entries| ==> Splittable(entries[k].content)
      modifies this
      ensures Valid() && (Contents(), result) == Persist(old(Contents()), key, entries)
    {
      var existingRecords := SelectKey(key);
      UnderIsGroup(records, chunks, key);
      var existing := Assemble(existingRecords);
      if existing.None? {
        return None;
      }
      if |existing.value| != 0 {
        if !RolesMatch(existing.value, entries) {
          return None;
        }
        return existing;
      }
      if !RolesDistinct(entries) {
        return None;
      }
      AppendEntries(ids, key, entries);
      result := Some(ItemsOf(key, entries));
    }

    /** `ordinal > cursor ORDER BY ordinal LIMIT pageSize + 1`, and whether the extra row was there. */
    method SelectAfter(cursor: Option<nat>, pageSize: nat) returns (limited: seq<Record>, hasMore: bool, ghost from: nat, ghost to: nat)
      requires Valid() && pageSize >= 1
      ensures from <= to <= |records| && |limited| == to - from && |Contents()| == |records|
      ensures (hasMore <==> to < |records|) && (hasMore ==> to > from && limited[|limited| - 1].ordinal == to - 1)
      ensures Backed(limited, chunks) && View(limited, chunks) == Contents()[from..to]
      ensures var first := if cursor.None? then 0 else cursor.value + 1; from == if first <= |records| then first else |records|
      ensures to == if |records| - from > pageSize then from + pageSize else |records|
    {
      var first := if cursor.None? then 0 else cursor.value + 1;
      var start := if first <= |records| then first else |records|;
      limited := if |records| - start > pageSize + 1 then records[start..start + pageSize + 1] else records[start..];
      hasMore := |limited| > pageSize;
      if hasMore {
        limited := limited[..pageSize];
      }
      from, to := start, start + |limited|;
      TakenIsStretch(records, start, pageSize);
      assert limited == records[from..to] && (hasMore ==> limited[pageSize - 1] == records[to - 1]);
      hide View, Backed;
      ViewSlice(records, chunks, from, to);
    }

    /** LoadConversationPage. */
    method LoadConversationPage(cursor: Option<nat>, pageSize: nat) returns (page: Option<Page>)
      requires Valid() && pageSize >= 1
      ensures page == LoadPage(Contents(), cursor, pageSize)
    {
      hide LoadPage, View, Readable, Backed, ConversationTables.Valid, ConversationTables.Contents;
      ghost var log := Contents();
      var limited, hasMore, from, to := SelectAfter(cursor, pageSize);
      PageOfSlice(log, cursor, pageSize, from, to);
      var items := Assemble(limited);
      if items.None? {
        return None;
      }
      page := Some(Page(items.value, if hasMore then Some(limited[|limited| - 1].ordinal) else None));
    }
  }
}
