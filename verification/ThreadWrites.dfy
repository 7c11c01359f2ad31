/**
 The writes the chat page queues, on a thread seen as a map from message id to message: merging upserts
 that may drop an optimistic placeholder, patches that set fields of a message (acknowledgements, edits,
 revocations, reactions, a failed send), and removals. A fetch that is replaced by a new one takes its
 snapshot after some of the queued writes, so the queue is replayed over a page that already holds a
 prefix of it.
 */
module ThreadWrites {
  import opened Common

  datatype Delivery = Pending | Sent | Delivered | Read | Failed

  /** The fields that survive an echo without them. `Reactions` says a reaction snapshot is present at all. */
  datatype Field = Author | Quoted | Call | Buttons | Reactions | Reaction(sender: string)

  datatype Media = Media(info: string, data: Option<string>)

  /** `body` stands for everything an echo replaces outright. */
  datatype Message = Message(body: string, kept: map<Field, string>, media: Option<Media>, status: Option<Delivery>)

  type Thread = map<string, Message>

  datatype Write =
    | Upsert(id: string, incoming: Message, dropId: Option<string>)
    | Patch(id: string, edit: Edit)
    | Remove(id: string)

  /** A patch sets what it names; `snapshot` replaces all reactions, `drops` takes single fields away. */
  datatype Edit = Edit(
    body: Option<string>, status: Option<Delivery>, sets: map<Field, string>, drops: set<Field>, snapshot: bool)

  const NOTHING := Edit(None, None, map[], {}, false)

  // ----- mergeDeliveryStatus -----

  function Rank(d: Delivery): int {
    match d
    case Pending => 0
    case Sent => 1
    case Delivered => 2
    case Read => 3
    case Failed => 4
  }

  function Advance(current: Option<Delivery>, incoming: Option<Delivery>): Option<Delivery> {
    if incoming.None? then current
    else if current.None? then incoming
    else if current.value.Failed? then current
    else if incoming.value.Failed? then
      (if current.value.Pending? || current.value.Sent? then incoming else current)
    else if Rank(incoming.value) >= Rank(current.value) then incoming
    else current
  }

  /** Delivery order: t is where advancing by t leads from s. */
  predicate Reaches(s: Option<Delivery>, t: Option<Delivery>) {
    Advance(s, t) == t
  }

  // ----- one write -----

  function Lay(kept: map<Field, string>, sets: map<Field, string>, drops: set<Field>, snapshot: bool): map<Field, string> {
    (map f | f in kept && f !in drops && !(snapshot && f.Reaction?) :: kept[f]) + sets
  }

  /** An echo that carries only a marker must not erase a payload. */
  function MergeMedia(existing: Option<Media>, incoming: Option<Media>): Option<Media> {
    if incoming.None? then existing
    else if existing.Some? && existing.value.data.Some? && incoming.value.data.None? then existing
    else incoming
  }

  function Merge(existing: Message, incoming: Message): Message {
    Message(
      incoming.body,
      Lay(existing.kept, incoming.kept, {}, Reactions in incoming.kept),
      MergeMedia(existing.media, incoming.media),
      Advance(existing.status, incoming.status))
  }

  function Patched(m: Message, e: Edit): Message {
    Message(
      e.body.GetOr(m.body),
      Lay(m.kept, e.sets, e.drops, e.snapshot),
      m.media,
      if e.status.Some? then e.status else m.status)
  }

  function Apply(w: Write, t: Thread): Thread {
    match w
    case Upsert(id, incoming, dropId) =>
      var trimmed := if dropId.Some? then t - {dropId.value} else t;
      trimmed[id := if id in trimmed then Merge(trimmed[id], incoming) else incoming]
    case Patch(id, edit) => if id in t then t[id := Patched(t[id], edit)] else t
    case Remove(id) => t - {id}
  }

  function ApplyQueue(q: seq<Write>, t: Thread): Thread {
    if q == [] then t else ApplyQueue(q[1..], Apply(q[0], t))
  }

  lemma {:induction false} ApplyQueueConcat(p: seq<Write>, q: seq<Write>, t: Thread)
    ensures ApplyQueue(p + q, t) == ApplyQueue(q, ApplyQueue(p, t))
  {
    if p == [] {
      assert p + q == q;
    } else {
      assert (p + q)[1..] == p[1..] + q;
      ApplyQueueConcat(p[1..], q, Apply(p[0], t));
    }
  }

  // ----- what a write does to one message -----

  function At(t: Thread, id: string): Option<Message> {
    if id in t then Some(t[id]) else None
  }

  predicate Clears(w: Write, id: string) {
    (w.Remove? && w.id == id) || (w.Upsert? && w.dropId == Some(id))
  }

  predicate Inserts(w: Write, id: string) {
    w.Upsert? && w.id == id
  }

  predicate Edits(w: Write, id: string) {
    w.Patch? && w.id == id
  }

  function Effect(w: Write, id: string, m: Option<Message>): Option<Message> {
    if Inserts(w, id) then
      (if Clears(w, id) || m.None? then Some(w.incoming) else Some(Merge(m.value, w.incoming)))
    else if Clears(w, id) then None
    else if Edits(w, id) && m.Some? then Some(Patched(m.value, w.edit))
    else m
  }

  function Effects(q: seq<Write>, id: string, m: Option<Message>): Option<Message> {
    if q == [] then m else Effects(q[1..], id, Effect(q[0], id, m))
  }

  lemma {:induction false} EffectsAreTheQueue(q: seq<Write>, t: Thread, id: string)
    ensures At(ApplyQueue(q, t), id) == Effects(q, id, At(t, id))
  {
    if q == [] {
    } else {
      assert At(Apply(q[0], t), id) == Effect(q[0], id, At(t, id));
      EffectsAreTheQueue(q[1..], Apply(q[0], t), id);
    }
  }

  predicate ClearedBy(q: seq<Write>, id: string) {
    exists w :: w in q && Clears(w, id)
  }

  lemma {:induction false} ClearingForgets(q: seq<Write>, id: string, m: Option<Message>, n: Option<Message>)
    requires ClearedBy(q, id) || m == n
    ensures Effects(q, id, m) == Effects(q, id, n)
  {
    if q == [] || m == n {
    } else {
      var w :| w in q && Clears(w, id);
      if !Clears(q[0], id) {
        assert w in q[1..];
      }
      ClearingForgets(q[1..], id, Effect(q[0], id, m), Effect(q[0], id, n));
    }
  }

  // ----- a message that stays present: its columns evolve independently of each other -----

  function FieldOf(kept: map<Field, string>, f: Field): Option<string> {
    if f in kept then Some(kept[f]) else None
  }

  function BodyStep(w: Write, id: string, body: string): string {
    if Inserts(w, id) then w.incoming.body
    else if Edits(w, id) then w.edit.body.GetOr(body)
    else body
  }

  function Laid(f: Field, value: Option<string>, sets: map<Field, string>, drops: set<Field>, snapshot: bool): Option<string> {
    if f in sets then Some(sets[f])
    else if f in drops || (snapshot && f.Reaction?) then None
    else value
  }

  function FieldStep(w: Write, id: string, f: Field, value: Option<string>): Option<string> {
    if Inserts(w, id) then Laid(f, value, w.incoming.kept, {}, Reactions in w.incoming.kept)
    else if Edits(w, id) then Laid(f, value, w.edit.sets, w.edit.drops, w.edit.snapshot)
    else value
  }

  function MediaStep(w: Write, id: string, media: Option<Media>): Option<Media> {
    if Inserts(w, id) then MergeMedia(media, w.incoming.media) else media
  }

  predicate Sets(w: Write, id: string) {
    Edits(w, id) && w.edit.status.Some?
  }

  function Incoming(w: Write, id: string): Option<Delivery> {
    if Inserts(w, id) then w.incoming.status else None
  }

  function StatusStep(w: Write, id: string, status: Option<Delivery>): Option<Delivery> {
    if Sets(w, id) then w.edit.status else Advance(status, Incoming(w, id))
  }

  function Fold<T>(q: seq<Write>, step: (Write, T) -> T, x: T): T {
    if q == [] then x else Fold(q[1..], step, step(q[0], x))
  }

  function Body(q: seq<Write>, id: string, body: string): string {
    Fold(q, (w, b) => BodyStep(w, id, b), body)
  }

  function Kept(q: seq<Write>, id: string, f: Field, value: Option<string>): Option<string> {
    Fold(q, (w, v) => FieldStep(w, id, f, v), value)
  }

  function Payload(q: seq<Write>, id: string, media: Option<Media>): Option<Media> {
    Fold(q, (w, x) => MediaStep(w, id, x), media)
  }

  function DeliveryAfter(q: seq<Write>, id: string, s: Option<Delivery>): Option<Delivery> {
    Fold(q, (w, x) => StatusStep(w, id, x), s)
  }

  ghost predicate Shows(n: Message, q: seq<Write>, id: string, m: Message) {
    && n.body == Body(q, id, m.body)
    && n.media == Payload(q, id, m.media)
    && n.status == DeliveryAfter(q, id, m.status)
    && forall f :: FieldOf(n.kept, f) == Kept(q, id, f, FieldOf(m.kept, f))
  }

  lemma EffectByColumn(w: Write, id: string, m: Message)
    requires !Clears(w, id)
    ensures var e := Effect(w, id, Some(m));
            && e.Some? && e.value.body == BodyStep(w, id, m.body)
            && e.value.media == MediaStep(w, id, m.media) && e.value.status == StatusStep(w, id, m.status)
            && forall f :: FieldOf(e.value.kept, f) == FieldStep(w, id, f, FieldOf(m.kept, f))
  {
  }

  lemma {:induction false} PresentStaysPresent(q: seq<Write>, id: string, m: Message)
    requires !ClearedBy(q, id)
    ensures Effects(q, id, Some(m)).Some? && Shows(Effects(q, id, Some(m)).value, q, id, m)
  {
    if q == [] {
    } else {
      assert !Clears(q[0], id);
      EffectByColumn(q[0], id, m);
      var n := Effect(q[0], id, Some(m)).value;
      PresentStaysPresent(q[1..], id, n);
      var out := Effects(q, id, Some(m)).value;
      forall f ensures FieldOf(out.kept, f) == Kept(q, id, f, FieldOf(m.kept, f)) {
        assert Kept(q, id, f, FieldOf(m.kept, f)) == Kept(q[1..], id, f, FieldOf(n.kept, f));
      }
    }
  }

  lemma SameMessage(a: Message, b: Message)
    requires a.body == b.body && a.media == b.media && a.status == b.status
    requires forall f :: FieldOf(a.kept, f) == FieldOf(b.kept, f)
    ensures a == b
  {
    forall f ensures (f in a.kept <==> f in b.kept) && (f in a.kept ==> a.kept[f] == b.kept[f]) {
      assert FieldOf(a.kept, f) == FieldOf(b.kept, f);
    }
    assert a.kept == b.kept;
  }

  // ----- each column, run twice -----

  /** A fold of overwrites either ignores its start or returns it. */
  ghost predicate IsOverwrite<T(!new)>(step: (Write, T) -> T) {
    forall w, x, y :: step(w, x) == step(w, y) || (step(w, x) == x && step(w, y) == y)
  }

  lemma {:induction false} OverwritesTwice<T(!new)>(q: seq<Write>, step: (Write, T) -> T, x: T, y: T)
    requires IsOverwrite(step)
    ensures Fold(q, step, x) == Fold(q, step, y) || (Fold(q, step, x) == x && Fold(q, step, y) == y)
  {
    if q == [] {
    } else {
      assert step(q[0], x) == step(q[0], y) || (step(q[0], x) == x && step(q[0], y) == y);
      OverwritesTwice(q[1..], step, step(q[0], x), step(q[0], y));
    }
  }

  lemma BodyTwice(q: seq<Write>, id: string, x: string, y: string)
    ensures Body(q, id, x) == Body(q, id, y) || (Body(q, id, x) == x && Body(q, id, y) == y)
  {
    OverwritesTwice(q, (w, b) => BodyStep(w, id, b), x, y);
  }

  lemma FieldTwice(q: seq<Write>, id: string, f: Field, x: Option<string>, y: Option<string>)
    ensures Kept(q, id, f, x) == Kept(q, id, f, y) || (Kept(q, id, f, x) == x && Kept(q, id, f, y) == y)
  {
    OverwritesTwice(q, (w, v) => FieldStep(w, id, f, v), x, y);
  }

  predicate Loaded(media: Option<Media>) {
    media.Some? && media.value.data.Some?
  }

  predicate Loads(w: Write, id: string) {
    Inserts(w, id) && Loaded(w.incoming.media)
  }

  lemma {:induction false} PayloadForgets(q: seq<Write>, id: string, x: Option<Media>, y: Option<Media>)
    requires x == y || exists w :: w in q && Loads(w, id)
    ensures Payload(q, id, x) == Payload(q, id, y)
  {
    if q == [] || x == y {
    } else {
      var w :| w in q && Loads(w, id);
      if !Loads(q[0], id) {
        assert w in q[1..];
      }
      PayloadForgets(q[1..], id, MediaStep(q[0], id, x), MediaStep(q[0], id, y));
    }
  }

  /** Without a payload in the queue a payload stays, and markers overwrite each other. */
  lemma {:induction false} MarkersOnly(q: seq<Write>, id: string, x: Option<Media>, y: Option<Media>)
    requires forall w :: w in q ==> !Loads(w, id)
    ensures Loaded(x) ==> Payload(q, id, x) == x
    ensures !Loaded(x) ==> !Loaded(Payload(q, id, x))
    ensures !Loaded(x) && !Loaded(y) ==>
              Payload(q, id, x) == Payload(q, id, y) || (Payload(q, id, x) == x && Payload(q, id, y) == y)
  {
    if q == [] {
    } else {
      assert !Loads(q[0], id);
      MarkersOnly(q[1..], id, MediaStep(q[0], id, x), MediaStep(q[0], id, y));
    }
  }

  lemma PayloadTwice(q: seq<Write>, id: string, x: Option<Media>)
    ensures Payload(q, id, Payload(q, id, x)) == Payload(q, id, x)
  {
    var out := Payload(q, id, x);
    if exists w :: w in q && Loads(w, id) {
      PayloadForgets(q, id, x, out);
    } else {
      MarkersOnly(q, id, x, out);
    }
  }

  lemma {:induction false} SetStatusForgets(q: seq<Write>, id: string, x: Option<Delivery>, y: Option<Delivery>)
    requires x == y || exists w :: w in q && Sets(w, id)
    ensures DeliveryAfter(q, id, x) == DeliveryAfter(q, id, y)
  {
    if q == [] || x == y {
    } else {
      var w :| w in q && Sets(w, id);
      if !Sets(q[0], id) {
        assert w in q[1..];
      }
      SetStatusForgets(q[1..], id, StatusStep(q[0], id, x), StatusStep(q[0], id, y));
    }
  }

  lemma ReachesTransitive(a: Option<Delivery>, b: Option<Delivery>, c: Option<Delivery>)
    requires Reaches(a, b) && Reaches(b, c)
    ensures Reaches(a, c)
  {
  }

  /** Without an outright set, the status only advances. */
  lemma {:induction false} ClimbIsReached(q: seq<Write>, id: string, s: Option<Delivery>)
    requires forall w :: w in q ==> !Sets(w, id)
    ensures Reaches(s, DeliveryAfter(q, id, s))
  {
    if q == [] {
    } else {
      var next := StatusStep(q[0], id, s);
      ClimbIsReached(q[1..], id, next);
      ReachesTransitive(s, next, DeliveryAfter(q[1..], id, next));
    }
  }

  /** Two climbs by the same echoes, the lower ending at top: the higher one ends there too if it can. */
  lemma {:induction false} ClimbsMeet(
      q: seq<Write>, id: string, low: Option<Delivery>, high: Option<Delivery>, top: Option<Delivery>)
    requires forall w :: w in q ==> !Sets(w, id)
    requires Reaches(low, high) && Reaches(high, top) && DeliveryAfter(q, id, low) == top
    ensures DeliveryAfter(q, id, high) == top
  {
    if q == [] {
      assert high == top;
    } else {
      var l, h := StatusStep(q[0], id, low), StatusStep(q[0], id, high);
      ClimbIsReached(q[1..], id, l);
      ClimbOne(low, high, top, Incoming(q[0], id));
      ClimbsMeet(q[1..], id, l, h, top);
    }
  }

  lemma ClimbOne(low: Option<Delivery>, high: Option<Delivery>, top: Option<Delivery>, i: Option<Delivery>)
    requires Reaches(low, high) && Reaches(high, top) && Reaches(Advance(low, i), top)
    ensures Reaches(Advance(low, i), Advance(high, i)) && Reaches(Advance(high, i), top)
  {
  }

  lemma StatusTwice(q: seq<Write>, id: string, s: Option<Delivery>)
    ensures DeliveryAfter(q, id, DeliveryAfter(q, id, s)) == DeliveryAfter(q, id, s)
  {
    var out := DeliveryAfter(q, id, s);
    if exists w :: w in q && Sets(w, id) {
      SetStatusForgets(q, id, s, out);
    } else {
      ClimbIsReached(q, id, s);
      ClimbsMeet(q, id, s, out, out);
    }
  }

  /** Where the last write of q that sets the status of id outright ends; 0 when there is none. */
  function LastSet(q: seq<Write>, id: string): (k: nat)
    ensures k <= |q| && (k > 0 ==> Sets(q[k - 1], id))
    ensures forall i :: k <= i < |q| ==> !Sets(q[i], id)
  {
    if q == [] then 0
    else
      var k := LastSet(q[1..], id);
      if k > 0 then k + 1 else if Sets(q[0], id) then 1 else 0
  }

  /** What a set leaves depends on the later echoes only. */
  lemma {:induction false} StatusAfterSet(q: seq<Write>, k: nat, id: string, x: Option<Delivery>)
    requires k < |q| && Sets(q[k], id)
    ensures DeliveryAfter(q, id, x) == DeliveryAfter(q[k + 1..], id, q[k].edit.status)
  {
    if k == 0 {
      assert StatusStep(q[0], id, x) == q[0].edit.status;
    } else {
      assert q[1..][k - 1] == q[k] && q[1..][k..] == q[k + 1..];
      StatusAfterSet(q[1..], k - 1, id, StatusStep(q[0], id, x));
    }
  }

  lemma PresentTwice(q: seq<Write>, id: string, m: Message)
    requires !ClearedBy(q, id)
    ensures Effects(q, id, Effects(q, id, Some(m))) == Effects(q, id, Some(m))
  {
    PresentStaysPresent(q, id, m);
    var n := Effects(q, id, Some(m)).value;
    PresentStaysPresent(q, id, n);
    var twice := Effects(q, id, Some(n)).value;
    BodyTwice(q, id, m.body, n.body);
    PayloadTwice(q, id, m.media);
    StatusTwice(q, id, m.status);
    forall f ensures FieldOf(twice.kept, f) == FieldOf(n.kept, f) {
      FieldTwice(q, id, f, FieldOf(m.kept, f), FieldOf(n.kept, f));
    }
    SameMessage(twice, n);
  }

  // ----- what a thread shows after a queue, in plain terms -----

  lemma {:induction false} FoldConcat<T>(p: seq<Write>, q: seq<Write>, step: (Write, T) -> T, x: T)
    ensures Fold(p + q, step, x) == Fold(q, step, Fold(p, step, x))
  {
    if p == [] {
      assert p + q == q;
    } else {
      assert (p + q)[1..] == p[1..] + q;
      FoldConcat(p[1..], q, step, step(p[0], x));
    }
  }

  lemma FoldOne<T>(w: Write, step: (Write, T) -> T, x: T)
    ensures Fold([w], step, x) == step(w, x)
  {
    assert [w][1..] == [];
  }

  /** A message that is in the thread and is not cleared shows its columns, each folded over the queue. */
  lemma ThreadShows(q: seq<Write>, t: Thread, id: string)
    requires id in t && !ClearedBy(q, id)
    ensures id in ApplyQueue(q, t) && Shows(ApplyQueue(q, t)[id], q, id, t[id])
  {
    EffectsAreTheQueue(q, t, id);
    PresentStaysPresent(q, id, t[id]);
  }

  /** A write after which a message is there, or gone. */
  predicate Decides(w: Write, id: string) {
    (w.Upsert? && (w.id == id || w.dropId == Some(id))) || (w.Remove? && w.id == id)
  }

  /**
   Who is in the thread: a message is there exactly when the last write that brings it or takes it away brings it, or
   it was there and no write does either. A drop of the very message that is upserted counts as bringing it.
   */
  lemma {:induction false} PresentIff(q: seq<Write>, t: Thread, id: string)
    ensures id in ApplyQueue(q, t) <==>
              || (id in t && forall w :: w in q ==> !Decides(w, id))
              || exists k :: 0 <= k < |q| && q[k].Upsert? && q[k].id == id && forall j :: k < j < |q| ==> !Decides(q[j], id)
  {
    if q == [] {
    } else {
      var n := |q| - 1;
      var was := ApplyQueue(q[..n], t);
      PresentIff(q[..n], t, id);
      assert q == q[..n] + [q[n]];
      ApplyQueueConcat(q[..n], [q[n]], t);
      assert [q[n]][1..] == [] && ApplyQueue([q[n]], was) == Apply(q[n], was);
      assert forall w :: w in q <==> w in q[..n] || w == q[n];
      assert forall k :: 0 <= k < n ==> q[..n][k] == q[k];
      if Decides(q[n], id) {
        assert id in Apply(q[n], was) <==> q[n].Upsert? && q[n].id == id;
      } else {
        assert id in Apply(q[n], was) <==> id in was;
      }
    }
  }

  /** The text of a message is what the last echo or edit of it said. */
  lemma LastBodyShows(a: seq<Write>, w: Write, b: seq<Write>, t: Thread, id: string, body: string)
    requires id in t && !ClearedBy(a + [w] + b, id)
    requires match w
             case Upsert(to, incoming, _) => to == id && body == incoming.body
             case Patch(to, edit) => to == id && edit.body == Some(body)
             case Remove(_) => false
    requires forall v :: v in b ==> !(v.Upsert? && v.id == id) && !(v.Patch? && v.id == id && v.edit.body.Some?)
    ensures id in ApplyQueue(a + [w] + b, t) && ApplyQueue(a + [w] + b, t)[id].body == body
  {
    var step := (v, x) => BodyStep(v, id, x);
    ThreadShows(a + [w] + b, t, id);
    FoldConcat(a + [w], b, step, t[id].body);
    FoldConcat(a, [w], step, t[id].body);
    FoldOne(w, step, Fold(a, step, t[id].body));
    QuietBody(b, id, body);
  }

  lemma {:induction false} QuietBody(q: seq<Write>, id: string, body: string)
    requires forall v :: v in q ==> !(v.Upsert? && v.id == id) && !(v.Patch? && v.id == id && v.edit.body.Some?)
    ensures Body(q, id, body) == body
  {
    if q == [] {
    } else {
      assert BodyStep(q[0], id, body) == body;
      QuietBody(q[1..], id, body);
    }
  }

  /** A write that says something about a field: a value, or that it is gone. */
  predicate Says(w: Write, id: string, f: Field, value: Option<string>) {
    match w
    case Upsert(to, incoming, _) =>
      to == id && (if f in incoming.kept then value == Some(incoming.kept[f])
                   else value == None && f.Reaction? && Reactions in incoming.kept)
    case Patch(to, edit) =>
      to == id && (if f in edit.sets then value == Some(edit.sets[f])
                   else value == None && (f in edit.drops || (f.Reaction? && edit.snapshot)))
    case Remove(_) => false
  }

  /** A field (author, quote, call, buttons, each reaction) is what the last write that says anything about it said. */
  lemma LastFieldShows(a: seq<Write>, w: Write, b: seq<Write>, t: Thread, id: string, f: Field, value: Option<string>)
    requires id in t && !ClearedBy(a + [w] + b, id) && Says(w, id, f, value)
    requires forall v, x :: v in b ==> !Says(v, id, f, x)
    ensures var out := ApplyQueue(a + [w] + b, t);
            id in out && (if f in out[id].kept then Some(out[id].kept[f]) else None) == value
  {
    var step := (v, x) => FieldStep(v, id, f, x);
    var start := FieldOf(t[id].kept, f);
    ThreadShows(a + [w] + b, t, id);
    assert FieldOf(ApplyQueue(a + [w] + b, t)[id].kept, f) == Kept(a + [w] + b, id, f, start);
    FoldConcat(a + [w], b, step, start);
    FoldConcat(a, [w], step, start);
    FoldOne(w, step, Fold(a, step, start));
    QuietField(b, id, f, value);
  }

  lemma {:induction false} QuietField(q: seq<Write>, id: string, f: Field, x: Option<string>)
    requires forall v, y :: v in q ==> !Says(v, id, f, y)
    ensures Kept(q, id, f, x) == x
  {
    if q == [] {
    } else {
      assert !Says(q[0], id, f, FieldStep(q[0], id, f, x));
      assert FieldStep(q[0], id, f, x) == x;
      QuietField(q[1..], id, f, x);
    }
  }

  /** ... and it survives every write that says nothing about it, echoes without it included. */
  lemma UnsaidFieldStays(q: seq<Write>, t: Thread, id: string, f: Field)
    requires id in t && !ClearedBy(q, id) && forall v, y :: v in q ==> !Says(v, id, f, y)
    ensures var out := ApplyQueue(q, t);
            id in out && (f in out[id].kept <==> f in t[id].kept) && (f in t[id].kept ==> out[id].kept[f] == t[id].kept[f])
  {
    ThreadShows(q, t, id);
    var out := ApplyQueue(q, t);
    assert FieldOf(out[id].kept, f) == Kept(q, id, f, FieldOf(t[id].kept, f));
    QuietField(q, id, f, FieldOf(t[id].kept, f));
  }

  /** A media payload is the last one that came, and no echo without a payload erases it. */
  lemma LastPayloadShows(a: seq<Write>, w: Write, b: seq<Write>, t: Thread, id: string)
    requires id in t && !ClearedBy(a + [w] + b, id)
    requires w.Upsert? && w.id == id && w.incoming.media.Some? && w.incoming.media.value.data.Some?
    requires forall v :: v in b && v.Upsert? && v.id == id ==> v.incoming.media.None? || v.incoming.media.value.data.None?
    ensures id in ApplyQueue(a + [w] + b, t) && ApplyQueue(a + [w] + b, t)[id].media == w.incoming.media
  {
    var step := (v, x) => MediaStep(v, id, x);
    ThreadShows(a + [w] + b, t, id);
    FoldConcat(a + [w], b, step, t[id].media);
    FoldConcat(a, [w], step, t[id].media);
    FoldOne(w, step, Fold(a, step, t[id].media));
    MarkersOnly(b, id, w.incoming.media, None);
  }

  lemma PayloadSurvives(q: seq<Write>, t: Thread, id: string)
    requires id in t && !ClearedBy(q, id) && t[id].media.Some? && t[id].media.value.data.Some?
    requires forall v :: v in q && v.Upsert? && v.id == id ==> v.incoming.media.None? || v.incoming.media.value.data.None?
    ensures id in ApplyQueue(q, t) && ApplyQueue(q, t)[id].media == t[id].media
  {
    ThreadShows(q, t, id);
    MarkersOnly(q, id, t[id].media, None);
  }

  /** A message that was not there is taken over as it comes; a patch of one that is not there does nothing. */
  lemma AbsentIsTakenAsIs(id: string, incoming: Message, edit: Edit, dropId: Option<string>, t: Thread)
    ensures id !in t ==> id in Apply(Upsert(id, incoming, dropId), t) && Apply(Upsert(id, incoming, dropId), t)[id] == incoming
    ensures id !in t ==> Apply(Patch(id, edit), t) == t
    ensures dropId.Some? && dropId.value != id ==> dropId.value !in Apply(Upsert(id, incoming, dropId), t)
  {
  }

  // ----- delivery, in plain terms -----

  /** The status the message started from, or that some echo in q carries. */
  predicate Among(q: seq<Write>, id: string, start: Option<Delivery>, d: Delivery) {
    start == Some(d) || exists w :: w in q && w.Upsert? && w.id == id && w.incoming.status == Some(d)
  }

  /** Failure counts if it comes before any sign of delivery. */
  predicate FailsFirst(q: seq<Write>, id: string, start: Option<Delivery>) {
    start == Some(Failed) ||
    exists j :: 0 <= j < |q| && q[j].Upsert? && q[j].id == id && q[j].incoming.status == Some(Failed)
                && !Among(q[..j], id, start, Delivered) && !Among(q[..j], id, start, Read)
  }

  /** Failed for good if failure came first; otherwise the furthest of pending, sent, delivered, read. */
  ghost predicate Furthest(q: seq<Write>, id: string, start: Option<Delivery>, end: Option<Delivery>) {
    && (end == Some(Failed) <==> FailsFirst(q, id, start))
    && (!FailsFirst(q, id, start) ==>
          && (end == Some(Read) <==> Among(q, id, start, Read))
          && (end == Some(Delivered) <==> Among(q, id, start, Delivered) && !Among(q, id, start, Read))
          && (end == Some(Sent) <==>
                Among(q, id, start, Sent) && !Among(q, id, start, Delivered) && !Among(q, id, start, Read))
          && (end == Some(Pending) <==>
                Among(q, id, start, Pending) && !Among(q, id, start, Sent)
                && !Among(q, id, start, Delivered) && !Among(q, id, start, Read)))
  }

  lemma AmongLast(q: seq<Write>, id: string, start: Option<Delivery>, d: Delivery)
    requires q != []
    ensures var n := |q| - 1;
            Among(q, id, start, d) <==>
              Among(q[..n], id, start, d) || (q[n].Upsert? && q[n].id == id && q[n].incoming.status == Some(d))
  {
    var n := |q| - 1;
    assert forall w :: w in q <==> w in q[..n] || w == q[n];
  }

  lemma FailsFirstLast(q: seq<Write>, id: string, start: Option<Delivery>)
    requires q != []
    ensures var n := |q| - 1;
            FailsFirst(q, id, start) <==>
              FailsFirst(q[..n], id, start)
              || (q[n].Upsert? && q[n].id == id && q[n].incoming.status == Some(Failed)
                  && !Among(q[..n], id, start, Delivered) && !Among(q[..n], id, start, Read))
  {
    var n := |q| - 1;
    forall j | 0 <= j < n ensures q[..n][..j] == q[..j] && q[..n][j] == q[j] {
    }
    if FailsFirst(q[..n], id, start) && start != Some(Failed) {
      var j :| 0 <= j < n && q[..n][j].Upsert? && q[..n][j].id == id && q[..n][j].incoming.status == Some(Failed)
               && !Among(q[..n][..j], id, start, Delivered) && !Among(q[..n][..j], id, start, Read);
      assert q[..j] == q[..n][..j];
      assert q[j].incoming.status == Some(Failed);
    }
  }

  lemma {:induction false} EchoesClimb(q: seq<Write>, id: string, start: Option<Delivery>)
    requires forall w :: w in q && w.Patch? && w.id == id ==> w.edit.status.None?
    ensures Furthest(q, id, start, DeliveryAfter(q, id, start))
  {
    if q == [] {
    } else {
      var n := |q| - 1;
      var step := (w, x) => StatusStep(w, id, x);
      assert q == q[..n] + [q[n]];
      EchoesClimb(q[..n], id, start);
      FoldConcat(q[..n], [q[n]], step, start);
      FoldOne(q[n], step, Fold(q[..n], step, start));
      assert DeliveryAfter(q, id, start) == Advance(DeliveryAfter(q[..n], id, start), Incoming(q[n], id));
      AmongLast(q, id, start, Pending);
      AmongLast(q, id, start, Sent);
      AmongLast(q, id, start, Delivered);
      AmongLast(q, id, start, Read);
      FailsFirstLast(q, id, start);
      OneEcho(q[..n], q, id, start, DeliveryAfter(q[..n], id, start), Incoming(q[n], id));
    }
  }

  lemma OneEcho(p: seq<Write>, q: seq<Write>, id: string, start: Option<Delivery>, s: Option<Delivery>, i: Option<Delivery>)
    requires Furthest(p, id, start, s)
    requires forall d :: d != Failed ==> (Among(q, id, start, d) <==> Among(p, id, start, d) || i == Some(d))
    requires FailsFirst(q, id, start) <==>
               FailsFirst(p, id, start)
               || (i == Some(Failed) && !Among(p, id, start, Delivered) && !Among(p, id, start, Read))
    ensures Furthest(q, id, start, Advance(s, i))
  {
  }

  /**
   Delivery ticks: over any queue of echoes and edits that set no status, a message of the thread ends at the
   furthest of pending, sent, delivered and read that it started from or that an echo carried; unless it had
   failed, or an echo said failed before anything said delivered or read: then it stays failed.
   */
  lemma EchoesEndAtFurthest(q: seq<Write>, t: Thread, id: string)
    requires id in t && !ClearedBy(q, id)
    requires forall w :: w in q && w.Patch? && w.id == id ==> w.edit.status.None?
    ensures id in ApplyQueue(q, t) && Furthest(q, id, t[id].status, ApplyQueue(q, t)[id].status)
  {
    ThreadShows(q, t, id);
    EchoesClimb(q, id, t[id].status);
  }

  /** An outright set starts the climb afresh from its status. */
  lemma SetStartsAfresh(a: seq<Write>, edit: Edit, b: seq<Write>, t: Thread, id: string)
    requires id in t && !ClearedBy(a + [Patch(id, edit)] + b, id) && edit.status.Some?
    requires forall w :: w in b && w.Patch? && w.id == id ==> w.edit.status.None?
    ensures var out := ApplyQueue(a + [Patch(id, edit)] + b, t);
            id in out && Furthest(b, id, edit.status, out[id].status)
  {
    var q := a + [Patch(id, edit)] + b;
    ThreadShows(q, t, id);
    assert q[|a|] == Patch(id, edit) && q[|a| + 1..] == b;
    StatusAfterSet(q, |a|, id, t[id].status);
    EchoesClimb(b, id, edit.status);
  }

  // ----- a message that is absent until the queue inserts it -----

  function FirstInsert(q: seq<Write>, id: string): (k: nat)
    ensures k <= |q|
    ensures forall i :: 0 <= i < k ==> !Inserts(q[i], id)
    ensures k < |q| ==> Inserts(q[k], id)
  {
    if q == [] || Inserts(q[0], id) then 0 else 1 + FirstInsert(q[1..], id)
  }

  /** Edits queued before the insertion do not lift the status past where it ends, or a later patch sets it anyway. */
  predicate StatusSettles(before: seq<Write>, from: seq<Write>, id: string) {
    var shown := DeliveryAfter(from, id, None);
    (exists w :: w in from && Sets(w, id)) || Reaches(DeliveryAfter(before, id, shown), shown)
  }

  predicate Touches(w: Write, id: string, f: Field) {
    || (Inserts(w, id) && (f in w.incoming.kept || (f.Reaction? && Reactions in w.incoming.kept)))
    || (Edits(w, id) && (f in w.edit.sets || f in w.edit.drops || (f.Reaction? && w.edit.snapshot)))
  }

  /** Edits queued before the insertion leave nothing in this field, or the insertion or a later write overwrites it. */
  predicate FieldSettles(before: seq<Write>, from: seq<Write>, id: string, f: Field) {
    (exists w :: w in from && Touches(w, id, f)) || Kept(before, id, f, None) == None
  }

  ghost predicate Settles(q: seq<Write>, id: string) {
    var k := FirstInsert(q, id);
    k == |q| || (StatusSettles(q[..k], q[k..], id) && forall f :: FieldSettles(q[..k], q[k..], id, f))
  }

  lemma {:induction false} NoInsertNoMessage(q: seq<Write>, id: string)
    requires forall w :: w in q ==> !Inserts(w, id)
    ensures Effects(q, id, None) == None
  {
    if q == [] {
    } else {
      assert Effect(q[0], id, None) == None;
      NoInsertNoMessage(q[1..], id);
    }
  }

  lemma {:induction false} EffectsConcat(p: seq<Write>, q: seq<Write>, id: string, m: Option<Message>)
    ensures Effects(p + q, id, m) == Effects(q, id, Effects(p, id, m))
  {
    if p == [] {
      assert p + q == q;
    } else {
      assert (p + q)[1..] == p[1..] + q;
      EffectsConcat(p[1..], q, id, Effect(p[0], id, m));
    }
  }

  lemma {:induction false} EditsKeepMedia(q: seq<Write>, id: string, media: Option<Media>)
    requires forall w :: w in q ==> !Inserts(w, id)
    ensures Payload(q, id, media) == media
  {
    if q == [] {
    } else {
      assert !Inserts(q[0], id);
      EditsKeepMedia(q[1..], id, media);
    }
  }

  lemma {:induction false} UntouchedField(q: seq<Write>, id: string, f: Field, x: Option<string>)
    requires forall w :: w in q ==> !Touches(w, id, f)
    ensures Kept(q, id, f, x) == x
  {
    if q == [] {
    } else {
      assert !Touches(q[0], id, f);
      UntouchedField(q[1..], id, f, x);
    }
  }

  lemma {:induction false} TouchedForgets(q: seq<Write>, id: string, f: Field, x: Option<string>, y: Option<string>)
    requires x == y || exists w :: w in q && Touches(w, id, f)
    ensures Kept(q, id, f, x) == Kept(q, id, f, y)
  {
    if q == [] || x == y {
    } else {
      var w :| w in q && Touches(w, id, f);
      if !Touches(q[0], id, f) {
        assert w in q[1..];
      }
      TouchedForgets(q[1..], id, f, FieldStep(q[0], id, f, x), FieldStep(q[0], id, f, y));
    }
  }

  lemma FieldReplayed(before: seq<Write>, from: seq<Write>, id: string, f: Field)
    ensures var shown := Kept(from, id, f, None);
            Kept(from, id, f, Kept(before, id, f, shown)) == shown <==> FieldSettles(before, from, id, f)
  {
    var shown := Kept(from, id, f, None);
    var lifted := Kept(before, id, f, shown);
    if exists w :: w in from && Touches(w, id, f) {
      TouchedForgets(from, id, f, lifted, None);
    } else {
      UntouchedField(from, id, f, None);
      UntouchedField(from, id, f, lifted);
    }
  }

  lemma StatusReplayed(before: seq<Write>, from: seq<Write>, id: string)
    ensures var shown := DeliveryAfter(from, id, None);
            DeliveryAfter(from, id, DeliveryAfter(before, id, shown)) == shown <==> StatusSettles(before, from, id)
  {
    var shown := DeliveryAfter(from, id, None);
    var lifted := DeliveryAfter(before, id, shown);
    if exists w :: w in from && Sets(w, id) {
      SetStatusForgets(from, id, lifted, None);
    } else {
      ClimbIsReached(from, id, lifted);
      if Reaches(lifted, shown) {
        ClimbsMeet(from, id, None, lifted, shown);
      }
    }
  }

  /** A message as first inserted might as well have been there before as an empty one. */
  const BLANK := Message("", map[], None, None)

  lemma InsertedShows(q: seq<Write>, id: string)
    requires q != [] && Inserts(q[0], id) && !ClearedBy(q, id)
    ensures Effects(q, id, None) == Effects(q, id, Some(BLANK))
  {
    assert !Clears(q[0], id);
    var m := q[0].incoming;
    assert Lay(map[], m.kept, {}, Reactions in m.kept) == m.kept;
    assert Merge(BLANK, m) == m;
  }

  lemma AbsentTwiceIff(q: seq<Write>, id: string)
    requires !ClearedBy(q, id)
    ensures Effects(q, id, Effects(q, id, None)) == Effects(q, id, None) <==> Settles(q, id)
  {
    var k := FirstInsert(q, id);
    var before, from := q[..k], q[k..];
    assert q == before + from;
    assert forall w :: w in before || w in from ==> w in q;
    NoInsertNoMessage(before, id);
    EffectsConcat(before, from, id, None);
    if k < |q| {
      InsertedShows(from, id);
      PresentStaysPresent(from, id, BLANK);
      var once := Effects(q, id, None).value;
      EffectsConcat(before, from, id, Some(once));
      PresentStaysPresent(before, id, once);
      var edited := Effects(before, id, Some(once)).value;
      PresentStaysPresent(from, id, edited);
      var twice := Effects(q, id, Some(once)).value;
      ReplayedColumns(before, from, id, once, edited, twice);
    }
  }

  lemma ReplayedColumns(before: seq<Write>, from: seq<Write>, id: string, once: Message, edited: Message, twice: Message)
    requires forall w :: w in before ==> !Inserts(w, id)
    requires from != [] && Inserts(from[0], id)
    requires Shows(once, from, id, BLANK) && Shows(edited, before, id, once) && Shows(twice, from, id, edited)
    ensures twice == once <==> StatusSettles(before, from, id) && forall f :: FieldSettles(before, from, id, f)
  {
    assert twice.body == once.body;
    EditsKeepMedia(before, id, once.media);
    PayloadTwice(from, id, None);
    StatusReplayed(before, from, id);
    forall f ensures FieldOf(twice.kept, f) == FieldOf(once.kept, f) <==> FieldSettles(before, from, id, f) {
      assert FieldOf(BLANK.kept, f) == None;
      FieldReplayed(before, from, id, f);
    }
    if StatusSettles(before, from, id) && forall f :: FieldSettles(before, from, id, f) {
      SameMessage(twice, once);
    }
  }

  // ----- replaying a queue over a page that already shows it -----

  /** Message id of thread t survives a replay of q: it is there already, q clears it, or its columns settle. */
  ghost predicate ReplaySafe(q: seq<Write>, t: Thread, id: string) {
    id in t || ClearedBy(q, id) || Settles(q, id)
  }

  lemma ReplayTwiceIff(q: seq<Write>, t: Thread, id: string)
    ensures At(ApplyQueue(q, ApplyQueue(q, t)), id) == At(ApplyQueue(q, t), id) <==> ReplaySafe(q, t, id)
  {
    EffectsAreTheQueue(q, t, id);
    EffectsAreTheQueue(q, ApplyQueue(q, t), id);
    var m := At(t, id);
    if ClearedBy(q, id) {
      ClearingForgets(q, id, m, Effects(q, id, m));
    } else if m.Some? {
      PresentTwice(q, id, m.value);
    } else {
      AbsentTwiceIff(q, id);
    }
  }

  lemma PrefixReplayIsHarmless(done: seq<Write>, rest: seq<Write>, t: Thread)
    requires forall id :: ReplaySafe(done, t, id)
    ensures ApplyQueue(done + rest, ApplyQueue(done, t)) == ApplyQueue(done + rest, t)
  {
    var once := ApplyQueue(done, t);
    var twice := ApplyQueue(done, once);
    forall id ensures At(twice, id) == At(once, id) {
      assert ReplaySafe(done, t, id);
      ReplayTwiceIff(done, t, id);
    }
    SameThread(twice, once);
    ApplyQueueConcat(done, rest, once);
    ApplyQueueConcat(done, rest, t);
  }

  /**
   Replaying a whole queue over a thread that already holds a prefix of it gives the thread that applying
   every write once gives, whatever the rest of the queue is, exactly when every message is replay-safe.
   */
  lemma {:induction false} PrefixReplayIsHarmlessIff(done: seq<Write>, t: Thread)
    ensures (forall rest :: ApplyQueue(done + rest, ApplyQueue(done, t)) == ApplyQueue(done + rest, t))
            <==> forall id :: ReplaySafe(done, t, id)
  {
    if forall id :: ReplaySafe(done, t, id) {
      forall rest ensures ApplyQueue(done + rest, ApplyQueue(done, t)) == ApplyQueue(done + rest, t) {
        PrefixReplayIsHarmless(done, rest, t);
      }
    } else {
      var id :| !ReplaySafe(done, t, id);
      ReplayTwiceIff(done, t, id);
      assert done + [] == done;
    }
  }

  lemma SameThread(a: Thread, b: Thread)
    requires forall id :: At(a, id) == At(b, id)
    ensures a == b
  {
    forall id ensures (id in a <==> id in b) && (id in a ==> a[id] == b[id]) {
      assert At(a, id) == At(b, id);
    }
  }

  // ----- the callers -----

  /**
   How the handlers queue edits: only for a message the thread shows at that moment. An edit of a message
   that is gone is also harmless as long as the queue does not bring the message back.
   */
  predicate Gated(q: seq<Write>, t: Thread) {
    forall i :: 0 <= i < |q| && q[i].Patch? ==>
      q[i].id in ApplyQueue(q[..i], t) || forall j :: i < j < |q| ==> !Inserts(q[j], q[i].id)
  }

  /** Queues made that way may be replayed over any prefix of themselves. */
  lemma GatedIsReplaySafe(q: seq<Write>, t: Thread, id: string)
    requires Gated(q, t)
    ensures ReplaySafe(q, t, id)
  {
    var k := FirstInsert(q, id);
    if id !in t && k < |q| {
      forall i | 0 <= i < k ensures !Edits(q[i], id) {
        assert forall w :: w in q[..i] ==> !Inserts(w, id);
        NoInsertNoMessage(q[..i], id);
        EffectsAreTheQueue(q[..i], t, id);
      }
      NoEditsNoLift(q[..k], id, DeliveryAfter(q[k..], id, None));
      forall f ensures FieldSettles(q[..k], q[k..], id, f) {
        UntouchedField(q[..k], id, f, None);
      }
    }
  }

  lemma {:induction false} NoEditsNoLift(q: seq<Write>, id: string, s: Option<Delivery>)
    requires forall w :: w in q ==> !Edits(w, id) && !Inserts(w, id)
    ensures DeliveryAfter(q, id, s) == s
  {
    if q == [] {
    } else {
      assert !Edits(q[0], id) && !Inserts(q[0], id);
      NoEditsNoLift(q[1..], id, s);
    }
  }

  /** A thread with more messages gates at least as much, and a queue gated as a whole is gated at every point. */
  lemma GatedOverMore(q: seq<Write>, n: nat, t: Thread, more: Thread)
    requires n <= |q| && Gated(q, t) && t.Keys <= more.Keys
    ensures Gated(q[..n], more)
  {
    forall i | 0 <= i < n && q[i].Patch?
      ensures q[i].id in ApplyQueue(q[..n][..i], more) || forall j :: i < j < n ==> !Inserts(q[j], q[i].id)
    {
      assert q[..n][..i] == q[..i];
      if q[i].id in ApplyQueue(q[..i], t) {
        KeysGrow(q[..i], t, more);
      }
    }
  }

  lemma {:induction false} KeysGrow(q: seq<Write>, t: Thread, more: Thread)
    requires t.Keys <= more.Keys
    ensures ApplyQueue(q, t).Keys <= ApplyQueue(q, more).Keys
  {
    if q == [] {
    } else {
      KeysGrow(q[1..], Apply(q[0], t), Apply(q[0], more));
    }
  }

  // ----- why each write being idempotent is not enough -----

  ghost predicate Idempotent(w: Write) {
    forall t :: Apply(w, Apply(w, t)) == Apply(w, t)
  }

  /**
   Two writes, each idempotent on every thread, whose queue is not safe to replay: a failed send patched
   in before the message it names. About the contract `apply` is given, not about the handlers, which
   do not queue this.
   */
  lemma IdempotentWritesCanStillDisagree()
    ensures exists a, b :: Idempotent(a) && Idempotent(b)
                           && ApplyQueue([a, b], ApplyQueue([a, b], map[])) != ApplyQueue([a, b], map[])
  {
    var m := Message("hi", map[], None, Some(Sent));
    var a, b := Patch("m", NOTHING.(status := Some(Failed))), Upsert("m", m, None);
    TwoWrites(a, b, map[]);
    TwoWrites(a, b, map["m" := m]);
    assert Patched(m, a.edit).status == Some(Failed);
    forall t ensures Apply(a, Apply(a, t)) == Apply(a, t) {
      if "m" in t {
        assert Patched(Patched(t["m"], a.edit), a.edit) == Patched(t["m"], a.edit);
      }
    }
    forall t ensures Apply(b, Apply(b, t)) == Apply(b, t) {
      if "m" in t {
        assert Merge(Merge(t["m"], m), m) == Merge(t["m"], m);
      } else {
        assert Merge(m, m) == m;
      }
    }
    assert Idempotent(a) && Idempotent(b);
  }

  lemma TwoWrites(a: Write, b: Write, t: Thread)
    ensures ApplyQueue([a, b], t) == Apply(b, Apply(a, t))
  {
    assert [a, b][1..] == [b];
    assert ApplyQueue([b][1..], Apply(b, Apply(a, t))) == Apply(b, Apply(a, t));
  }
}
