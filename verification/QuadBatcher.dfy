/**
  Batched drawing of quads: up to eight textures in slots, instances appended to one
  buffer, atlas uploads deferred to the draw. It must show what drawing each quad when
  it is pushed would show.
 */
module QuadBatching {
  import opened Wrappers
  import opened TextureUploads

  const TEXTURE_SLOTS := 8
  const INITIAL_INSTANCES := 16384

  datatype Quad = Quad(
    x0: real, y0: real, x1: real, y1: real, u0: real, v0: real, u1: real, v1: real,
    r: real, g: real, b: real, a: real, mode: real, pad0: real, pad1: real, pad2: real)

  const NO_QUAD := Quad(0.0, 0.0, 0.0, 0.0, 0.0, 0.0, 0.0, 0.0, 0.0, 0.0, 0.0, 0.0, 0.0, 0.0, 0.0, 0.0)

  datatype Transform = Transform(scale: real, offsetX: real, offsetY: real, opacity: real)

  const IDENTITY := Transform(1.0, 0.0, 0.0, 1.0)

  function Scaled(scale: real, x: real): real {
    x * scale
  }

  /** A quad in window coordinates; mode 4 measures its shape in pixels too. */
  function Placed(t: Transform, q: Quad): Quad {
    var moved := q.(x0 := t.offsetX + Scaled(t.scale, q.x0), y0 := t.offsetY + Scaled(t.scale, q.y0),
                    x1 := t.offsetX + Scaled(t.scale, q.x1), y1 := t.offsetY + Scaled(t.scale, q.y1),
                    a := q.a * t.opacity);
    if q.mode == 4.0 then
      moved.(u0 := Scaled(t.scale, q.u0), v0 := Scaled(t.scale, q.v0),
             u1 := Scaled(t.scale, q.u1), v1 := Scaled(t.scale, q.v1), pad0 := Scaled(t.scale, q.pad0),
             pad1 := Scaled(t.scale, q.pad1), pad2 := Scaled(t.scale, q.pad2))
    else moved
  }

  /** Moving the origin moves the quad, and nothing else of it. */
  lemma PlacedMoves(t: Transform, dx: real, dy: real, q: Quad)
    ensures
      var p := Placed(t, q);
      Placed(t.(offsetX := t.offsetX + dx, offsetY := t.offsetY + dy), q) ==
        p.(x0 := p.x0 + dx, x1 := p.x1 + dx, y0 := p.y0 + dy, y1 := p.y1 + dy)
  {
    hide Scaled;
  }

  /** What was pushed: a placed quad, its texture, and the rows and the generation of its surface then. */
  datatype Push = Push(quad: Quad, texture: Option<nat>, atlas: bool, rows: seq<Row>, generation: int)

  /** One draw call: the instances, and the textures bound to the slots with their contents. */
  datatype Draw = Draw(quads: seq<Quad>, slots: seq<nat>, contents: seq<seq<Row>>)

  /** The slot that an instance carries for the shader. */
  function SlotOf(q: Quad): int {
    q.pad0.Floor
  }

  /** The instance draws the pushed quad; with a texture, `pad0` is the slot of that texture. */
  ghost predicate Carries(q: Quad, slots: seq<nat>, p: Push) {
    match p.texture
    case None => q == p.quad
    case Some(texture) =>
      && q == p.quad.(pad0 := q.pad0)
      && 0 <= SlotOf(q) < |slots| && slots[SlotOf(q)] == texture
  }

  ghost predicate AllCarry(quads: seq<Quad>, slots: seq<nat>, pushes: seq<Push>) {
    |quads| == |pushes| && forall k :: 0 <= k < |quads| ==> Carries(quads[k], slots, pushes[k])
  }

  /** The last rows that were pushed for a texture in a batch. */
  function LastRows(batch: seq<Push>, texture: nat): seq<Row> {
    if batch == [] then []
    else if batch[|batch| - 1].texture == Some(texture) then batch[|batch| - 1].rows
    else LastRows(batch[..|batch| - 1], texture)
  }

  /**
    A texture of the batch, at the draw: an atlas still shows what each quad was pushed with, another
    texture what it last showed.
   */
  ghost predicate SlotShows(contents: seq<Row>, texture: nat, batch: seq<Push>) {
    forall k :: 0 <= k < |batch| && batch[k].texture == Some(texture) ==>
      if batch[k].atlas then batch[k].rows <= contents else contents == LastRows(batch, texture)
  }

  /** A draw call draws a batch of pushes. */
  ghost predicate Draws(d: Draw, batch: seq<Push>) {
    && |d.contents| == |d.slots|
    && AllCarry(d.quads, d.slots, batch)
    && forall s :: 0 <= s < |d.slots| ==> SlotShows(d.contents[s], d.slots[s], batch)
  }

  predicate SameGeneration(p: Push, q: Push) {
    p.texture.Some? && p.texture == q.texture && p.generation == q.generation
  }

  /** Pushes of one texture under one generation have the same rows. */
  ghost predicate GenerationsAgree(batch: seq<Push>) {
    forall i, j :: 0 <= i < j < |batch| && SameGeneration(batch[i], batch[j]) ==> batch[i].rows == batch[j].rows
  }

  /** All draw calls draw all batches. */
  ghost predicate AllDrawn(draws: seq<Draw>, batches: seq<seq<Push>>) {
    |draws| == |batches| && forall k :: 0 <= k < |draws| ==> Draws(draws[k], batches[k]) && GenerationsAgree(batches[k])
  }

  /** No pending push has a later generation than its surface, and one of the same generation has its rows. */
  ghost predicate PushedBefore(
    convert: (nat, Row) -> Row, textures: map<nat, Texture>, surfaces: map<nat, Surface>, pending: seq<Push>)
  {
    forall k :: 0 <= k < |pending| && pending[k].texture.Some? ==>
      var texture := pending[k].texture.value;
      texture in textures && PushedBeforeOne(convert, textures[texture], surfaces, pending[k])
  }

  ghost predicate PushedBeforeOne(convert: (nat, Row) -> Row, t: Texture, surfaces: map<nat, Surface>, p: Push) {
    && t.surface in surfaces && p.generation <= surfaces[t.surface].generation
    && (p.generation == surfaces[t.surface].generation ==> p.rows == RowsNow(convert, t, surfaces[t.surface]))
  }

  /** The push of a quad of a texture, now. */
  function PushNow(
    convert: (nat, Row) -> Row, transform: Transform, quad: Quad, texture: nat, t: Texture, s: Surface): (p: Push)
  {
    Push(Placed(transform, quad), Some(texture), t.atlas, RowsNow(convert, t, s), s.generation)
  }

  /** A texture has a slot, or there is one for it. */
  predicate Fits(texture: nat, slots: seq<nat>) {
    texture in slots || |slots| < TEXTURE_SLOTS
  }

  function AfterFlush(batches: seq<seq<Push>>, pending: seq<Push>): seq<seq<Push>> {
    if pending == [] then batches else batches + [pending]
  }

  predicate Distinct(slots: seq<nat>) {
    forall i, j :: 0 <= i < j < |slots| ==> slots[i] != slots[j]
  }

  /** How each texture in use relates to its surface. */
  ghost predicate TexturesTrack(convert: (nat, Row) -> Row, textures: map<nat, Texture>, surfaces: map<nat, Surface>,
                                epoch: nat)
  {
    forall t :: t in textures ==>
      && textures[t].surface in surfaces
      && Tracks(convert, textures[t], surfaces[textures[t].surface], epoch)
      && (textures[t].atlas <==> textures[t].mode < IMAGE_TEXTURE && surfaces[textures[t].surface].glyphRows >= 0)
  }

  /** The pending quads of an atlas were pushed with rows that it still has. */
  ghost predicate StillThere(convert: (nat, Row) -> Row, t: Texture, s: Surface, texture: nat, pending: seq<Push>) {
    forall k :: 0 <= k < |pending| && pending[k].texture == Some(texture) ==>
      && pending[k].atlas == t.atlas
      && (t.atlas ==>
            0 <= s.glyphRows <= |s.rows| && pending[k].rows <= Converted(convert, t.mode, s.rows[..s.glyphRows]))
  }

  /** What the pending quads of a texture were pushed with is still to be shown; of an image, what it showed last. */
  ghost predicate StillShown(convert: (nat, Row) -> Row, t: Texture, s: Surface, texture: nat, pending: seq<Push>) {
    && StillThere(convert, t, s, texture, pending)
    && (Uses(pending, texture) && !t.atlas ==> t.gpu == LastRows(pending, texture))
  }

  predicate Uses(pending: seq<Push>, texture: nat) {
    exists k :: 0 <= k < |pending| && pending[k].texture == Some(texture)
  }

  ghost predicate PendingShown(convert: (nat, Row) -> Row, textures: map<nat, Texture>, surfaces: map<nat, Surface>,
                               slots: seq<nat>, pending: seq<Push>)
  {
    forall i :: 0 <= i < |slots| ==>
      && slots[i] in textures && textures[slots[i]].surface in surfaces
      && StillShown(convert, textures[slots[i]], surfaces[textures[slots[i]].surface], slots[i], pending)
  }

  // ---- Slots ----

  /** A pushed quad joins the batch. */
  lemma CarryAppend(quads: seq<Quad>, slots: seq<nat>, more: seq<nat>, pushes: seq<Push>, q: Quad, p: Push)
    requires AllCarry(quads, slots, pushes) && slots <= more && Carries(q, more, p)
    ensures AllCarry(quads + [q], more, pushes + [p])
  {
  }

  // ---- Shown contents ----

  lemma LastRowsAppend(batch: seq<Push>, p: Push, texture: nat)
    ensures LastRows(batch + [p], texture) == if p.texture == Some(texture) then p.rows else LastRows(batch, texture)
  {
    assert (batch + [p])[..|batch|] == batch;
  }

  /** A push of another texture changes nothing. */
  lemma OtherPush(convert: (nat, Row) -> Row, t: Texture, s: Surface, texture: nat, pending: seq<Push>, p: Push)
    requires StillShown(convert, t, s, texture, pending) && p.texture != Some(texture)
    ensures StillShown(convert, t, s, texture, pending + [p])
  {
    LastRowsAppend(pending, p, texture);
    UsesAppend(pending, p, texture);
  }

  lemma UsesAppend(pending: seq<Push>, p: Push, texture: nat)
    ensures Uses(pending + [p], texture) <==> Uses(pending, texture) || p.texture == Some(texture)
  {
    forall k | 0 <= k < |pending| ensures (pending + [p])[k] == pending[k] {
    }
    assert (pending + [p])[|pending|] == p;
  }

  /** A push of the texture itself, with the rows that it shows now. */
  lemma OwnPush(convert: (nat, Row) -> Row, t: Texture, s: Surface, texture: nat, pending: seq<Push>, p: Push)
    requires StillThere(convert, t, s, texture, pending)
    requires p.texture == Some(texture) && p.atlas == t.atlas
    requires if t.atlas then 0 <= s.glyphRows <= |s.rows| && p.rows == Converted(convert, t.mode, s.rows[..s.glyphRows])
             else p.rows == t.gpu
    ensures StillShown(convert, t, s, texture, pending + [p])
  {
    LastRowsAppend(pending, p, texture);
  }

  /** At the draw, after its update, a texture shows what its quads were pushed with. */
  lemma DrawnShows(convert: (nat, Row) -> Row, t: Texture, s: Surface, texture: nat, pending: seq<Push>)
    requires StillShown(convert, t, s, texture, pending)
    requires t.atlas ==> Shows(convert, t, s, s.glyphRows)
    ensures SlotShows(t.gpu, texture, pending)
  {
    if t.atlas {
      forall k | 0 <= k < |pending| && pending[k].texture == Some(texture) ensures pending[k].rows <= t.gpu {
        var rows := pending[k].rows;
        forall i | 0 <= i < |rows| ensures rows[i] == t.gpu[i] {
          assert rows[i] == Converted(convert, t.mode, s.rows[..s.glyphRows])[i] == convert(t.mode, s.rows[i]);
        }
      }
    }
  }

  lemma EpochTracks(convert: (nat, Row) -> Row, t: Texture, s: Surface, epoch: nat)
    requires Tracks(convert, t, s, epoch)
    ensures Tracks(convert, t, s, epoch + 1)
  {
  }

  lemma AdvanceKeepsTextures(
    convert: (nat, Row) -> Row, textures: map<nat, Texture>, surfaces: map<nat, Surface>, epoch: nat, id: nat,
      next: Surface)
    requires TexturesTrack(convert, textures, surfaces, epoch) && id in surfaces && Advances(surfaces[id], next)
    ensures TexturesTrack(convert, textures, surfaces[id := next], epoch + 1)
  {
    forall t | t in textures
      ensures Tracks(convert, textures[t], surfaces[id := next][textures[t].surface], epoch + 1)
      ensures textures[t].atlas <==>
              textures[t].mode < IMAGE_TEXTURE && surfaces[id := next][textures[t].surface].glyphRows >= 0
    {
      var texture := textures[t];
      if texture.surface == id {
        TrackedRows(convert, texture, surfaces[id], epoch);
        AdvanceTracks(convert, texture, surfaces[id], next, epoch);
      } else {
        EpochTracks(convert, texture, surfaces[texture.surface], epoch);
      }
    }
  }

  lemma TrackedRows(convert: (nat, Row) -> Row, t: Texture, s: Surface, epoch: nat)
    requires Tracks(convert, t, s, epoch)
    requires t.atlas <==> t.mode < IMAGE_TEXTURE && s.glyphRows >= 0
    ensures t.atlas ==> 0 <= s.glyphRows <= |s.rows|
    ensures t.mode >= IMAGE_TEXTURE || s.glyphRows <= |s.rows|
  {
  }

  function Flatten<T>(xs: seq<seq<T>>): seq<T> {
    if xs == [] then [] else Flatten(xs[..|xs| - 1]) + xs[|xs| - 1]
  }

  lemma FlattenAppend<T>(xs: seq<seq<T>>, x: seq<T>)
    ensures Flatten(xs + [x]) == Flatten(xs) + x
  {
    assert (xs + [x])[..|xs|] == xs;
  }

  /** The rows that a push shows: those of its surface that can be drawn, at that time. */
  function RowsNow(convert: (nat, Row) -> Row, t: Texture, s: Surface): seq<Row> {
    Converted(convert, t.mode, if 0 <= VisibleRows(t, s) <= |s.rows| then s.rows[..VisibleRows(t, s)] else s.rows)
  }

  lemma ShownRows(convert: (nat, Row) -> Row, t: Texture, s: Surface)
    requires !t.atlas && |t.gpu| == |s.rows| && Shows(convert, t, s, |s.rows|)
    ensures t.gpu == RowsNow(convert, t, s)
  {
    assert s.rows[..|s.rows|] == s.rows;
  }

  function Contents(textures: map<nat, Texture>, slots: seq<nat>): (r: seq<seq<Row>>)
    requires forall i :: 0 <= i < |slots| ==> slots[i] in textures
    ensures |r| == |slots| && forall i :: 0 <= i < |r| ==> r[i] == textures[slots[i]].gpu
  {
    seq(|slots|, i requires 0 <= i < |slots| => textures[slots[i]].gpu)
  }

  class QuadBatcher {
    const convert: (nat, Row) -> Row
    var textures: map<nat, Texture>
    var surfaces: map<nat, Surface>
    var epoch: nat
    var frameIndex: nat
    var transform: Transform
    // the batch
    var instances: seq<Quad>
    var slots: seq<nat>
    var lastTexture: Option<nat>
    var lastSlot: nat
    // the instance buffer
    var buffer: seq<Quad>
    var used: nat
    var draws: seq<Draw>
    ghost var batches: seq<seq<Push>>
    ghost var pending: seq<Push>

    ghost predicate Valid()
      reads this
    {
      && AllDrawn(draws, batches) && BatchOk() && TexturesTrack(convert, textures, surfaces, epoch)
      && PendingShown(convert, textures, surfaces, slots, pending)
      && PushedBefore(convert, textures, surfaces, pending) && GenerationsAgree(pending)
    }

    /** As Valid, but an image may just have been uploaded. */
    ghost predicate ValidBut(texture: nat)
      reads this
    {
      && AllDrawn(draws, batches) && BatchOk() && TexturesTrack(convert, textures, surfaces, epoch)
      && ShownBut(convert, textures, surfaces, slots, pending, texture)
      && PushedBefore(convert, textures, surfaces, pending) && GenerationsAgree(pending)
    }

    ghost predicate BatchOk()
      reads this
    {
      && AllCarry(instances, slots, pending) && Distinct(slots) && |slots| <= TEXTURE_SLOTS
      && (lastTexture.Some? ==> lastSlot < |slots| && slots[lastSlot] == lastTexture.value)
      && (instances == [] ==> slots == [] && lastTexture == None)
      && used <= |buffer|
    }

    /** Everything pushed so far, in order. */
    ghost function Pushes(): seq<Push>
      reads this
    {
      Flatten(batches) + pending
    }

    constructor (convert: (nat, Row) -> Row)
      ensures Valid() && this.convert == convert && textures == map[] && surfaces == map[]
      ensures draws == [] && batches == [] && pending == [] && slots == []
    {
      this.convert := convert;
      textures, surfaces, epoch, frameIndex, transform := map[], map[], 0, 1, IDENTITY;
      instances, slots, lastTexture, lastSlot := [], [], None, 0;
      buffer, used, draws, batches, pending := [], 0, [], [], [];
    }

    /** Makes room for a batch; a new buffer starts empty. */
    method EnsureBuffer(count: nat)
      requires used <= |buffer|
      modifies this`buffer, this`used
      ensures used <= |buffer| && count <= |buffer|
      ensures count <= old(|buffer|) ==> buffer == old(buffer) && used == old(used)
    {
      if count <= |buffer| {
        return;
      }
      var capacity := if |buffer| != 0 then |buffer| * 2 else INITIAL_INSTANCES;
      while capacity < count
        invariant capacity > 0
        decreases count - capacity
      {
        capacity := capacity * 2;
      }
      buffer := seq(capacity, _ => NO_QUAD);
      used := 0;
    }

    /**
      Appends the batch after the previous one, or at the start when the rest of the buffer is
      too small; the instances of earlier draws since the last discard are not overwritten.
     */
    method WriteInstances() returns (first: nat, discarded: bool)
      requires used <= |buffer| && |instances| <= |buffer|
      modifies this`buffer, this`used
      ensures |buffer| == |old(buffer)| && used == first + |instances| <= |buffer|
      ensures buffer[first..used] == instances
      ensures if discarded then first == 0 else first == old(used) && buffer[..first] == old(buffer[..used])
    {
      discarded := used + |instances| > |buffer|;
      if discarded {
        used := 0;
      }
      first := used;
      buffer := buffer[..first] + instances + buffer[first + |instances|..];
      used := used + |instances|;
    }

    /** Brings the atlases of the batch up to date. */
    method UpdateAtlases() returns (ok: bool)
      requires TexturesTrack(convert, textures, surfaces, epoch) && Distinct(slots)
      requires forall i :: 0 <= i < |slots| ==> slots[i] in textures
      modifies this`textures
      ensures ok && TexturesTrack(convert, textures, surfaces, epoch)
      ensures textures.Keys == old(textures).Keys
      ensures SameTextures(old(textures), textures)
      ensures forall i :: 0 <= i < |slots| && textures[slots[i]].atlas ==> AtlasShows(slots[i])
    {
      hide Tracks, Updated, Shows;
      var before := textures;
      for i := 0 to |slots|
        invariant textures.Keys == before.Keys && TexturesTrack(convert, textures, surfaces, epoch)
        invariant SameTextures(before, textures)
        invariant forall j :: 0 <= j < i && textures[slots[j]].atlas ==> AtlasShows(slots[j])
      {
        var id := slots[i];
        var t := textures[id];
        if t.atlas {
          var s := surfaces[t.surface];
          UpdateShows(convert, t, s, frameIndex, epoch);
          TrackedSizes(convert, t, s, epoch);
          var r := UpdateTexture(convert, t, s, frameIndex, epoch);
          if r.None? {
            return false;
          }
          textures := textures[id := r.value];
        }
      }
      return true;
    }

    ghost predicate AtlasShows(t: nat)
      reads this`textures, this`surfaces
    {
      && t in textures && textures[t].surface in surfaces
      && Shows(convert, textures[t], surfaces[textures[t].surface], surfaces[textures[t].surface].glyphRows)
    }

    /** One draw call for the batch, after its atlases are brought up to date. */
    method DrawBatch() returns (draw: Draw)
      requires Valid()
      modifies this`textures, this`buffer, this`used
      ensures Draws(draw, pending) && used <= |buffer|
      ensures TexturesTrack(convert, textures, surfaces, epoch) && SameTextures(old(textures), textures)
    {
      hide AllDrawn, TexturesTrack, PendingShown, Draws, AllCarry, Shows, SameTextures;
      ghost var before := textures;
      EnsureBuffer(|instances|);
      SlotsExist(convert, textures, surfaces, slots, pending);
      var ok := UpdateAtlases();
      SameKeys(before, textures);
      var first, discarded := WriteInstances();
      draw := Draw(buffer[first..first + |instances|], slots, Contents(textures, slots));
      DrawIsRight(convert, before, textures, surfaces, pending, draw);
    }

    /** Draws the pending batch. */
    method Flush() returns (ok: bool)
      requires Valid()
      modifies this
      ensures Valid() && ok && pending == [] && Pushes() == old(Pushes())
      ensures surfaces == old(surfaces) && epoch == old(epoch) && transform == old(transform)
      ensures SameTextures(old(textures), textures)
      ensures slots == [] && lastTexture == None
      ensures batches == if old(pending) == [] then old(batches) else old(batches) + [old(pending)]
    {
      hide AllDrawn, TexturesTrack, PendingShown, Draws, AllCarry, Shows, SameTextures, Flatten, GenerationsAgree,
           PushedBefore;
      CarrySizes(instances, slots, pending);
      NothingChanged(textures);
      if |instances| == 0 {
        return true;
      }
      var draw := DrawBatch();
      AppendDraw(draws, batches, draw, pending);
      FlattenAppend(batches, pending);
      draws := draws + [draw];
      batches := batches + [pending];
      instances, slots, lastTexture, pending := [], [], None, [];
      NothingPending(convert, textures, surfaces);
      return true;
    }

    /** Queues a quad that needs no texture. */
    method QueuePlain(quad: Quad) returns (ok: bool)
      requires Valid()
      modifies this
      ensures Valid() && ok && batches == old(batches)
      ensures pending == old(pending) + [Push(Placed(old(transform), quad), None, false, [], 0)]
      ensures surfaces == old(surfaces) && epoch == old(epoch) && transform == old(transform)
              && textures == old(textures)
    {
      hide AllDrawn, TexturesTrack, PendingShown, AllCarry, Placed, StillShown, GenerationsAgree, PushedBefore;
      var p := Push(Placed(transform, quad), None, false, [], 0);
      PushedPlain(convert, textures, surfaces, pending, p);
      var queued := Placed(transform, quad);
      CarryAppend(instances, slots, slots, pending, queued, p);
      OthersStillShown(convert, textures, surfaces, slots, pending, p);
      instances := instances + [queued];
      pending := pending + [p];
      return true;
    }

    /** The batch stays as it is, with a slot for the texture. */
    ghost predicate Keeps(batches0: seq<seq<Push>>, pending0: seq<Push>, slots0: seq<nat>, texture: nat)
      reads this
    {
      && batches == batches0 && pending == pending0
      && slots == if texture in slots0 then slots0 else slots0 + [texture]
    }

    /**
      Claims a slot for a texture: the last one used, one that already holds the texture, or a new
      one; with all eight taken the batch is drawn first.
     */
    method ClaimSlot(texture: nat) returns (slot: nat)
      requires ValidBut(texture) && texture in textures
      modifies this
      ensures slot < |slots| <= TEXTURE_SLOTS && slots[slot] == texture && Distinct(slots)
      ensures lastTexture == Some(texture) && lastSlot == slot && used <= |buffer|
      ensures AllDrawn(draws, batches) && TexturesTrack(convert, textures, surfaces, epoch)
              && AllCarry(instances, slots, pending)
      ensures ShownBut(convert, textures, surfaces, slots, pending, texture)
      ensures PushedBefore(convert, textures, surfaces, pending) && GenerationsAgree(pending)
      ensures surfaces == old(surfaces) && epoch == old(epoch) && transform == old(transform)
      ensures SameTextures(old(textures), textures)
      ensures if Fits(texture, old(slots)) then Keeps(old(batches), old(pending), old(slots), texture)
              else pending == [] && batches == AfterFlush(old(batches), old(pending)) && slots == [texture]
    {
      hide AllDrawn, TexturesTrack, PendingShown, AllCarry, ShownBut, SameTextures, GenerationsAgree, PushedBefore;
      NothingChanged(textures);
      SameKeys(textures, textures);
      var found: int := -1;
      if lastTexture == Some(texture) {
        found := lastSlot;
      } else {
        found := FindSlot(texture);
      }
      if found < 0 {
        ShownWithout(convert, textures, surfaces, slots, pending, texture);
        if |slots| >= TEXTURE_SLOTS {
          ghost var before := textures;
          var ok := Flush();
          SameKeys(before, textures);
        }
        NewSlot(convert, textures, surfaces, epoch, instances, slots, pending, texture);
        found := |slots|;
        slots := slots + [texture];
      }
      slot := found;
      lastTexture := Some(texture);
      lastSlot := slot;
    }

    /** Queues a quad of a texture that shows its surface, or will when its atlas is updated. */
    method QueueTextured(quad: Quad, texture: nat) returns (ok: bool)
      requires ValidBut(texture) && texture in textures && textures[texture].surface in surfaces
      requires !textures[texture].atlas ==>
                 textures[texture].gpu == RowsNow(convert, textures[texture], surfaces[textures[texture].surface])
      modifies this
      ensures Valid() && ok && SameTextures(old(textures), textures)
      ensures surfaces == old(surfaces) && epoch == old(epoch) && transform == old(transform)
      ensures Pushed(old(batches), old(pending), old(slots), texture, old(PushOf(quad, texture)))
    {
      hide AllDrawn, TexturesTrack, PendingShown, AllCarry, Placed, RowsNow, ShownBut, SameTextures, GenerationsAgree,
           PushedBefore;
      ghost var before := textures;
      ghost var t := textures[texture];
      ghost var p := PushOf(quad, texture);
      var slot := ClaimSlot(texture);
      SameAt(before, textures, texture);
      var queued := Placed(transform, quad).(pad0 := slot as real);
      CarryAppend(instances, slots, slots, pending, queued, p);
      SameRowsNow(convert, t, textures[texture], surfaces[t.surface]);
      AllShown(convert, textures, surfaces, epoch, slots, pending, texture, p);
      PushedTextured(convert, textures, surfaces, pending, texture, p);
      instances := instances + [queued];
      pending := pending + [p];
      return true;
    }

    /** The push of a quad of a texture, with the rows that its surface has now. */
    function PushOf(quad: Quad, texture: nat): Push
      requires texture in textures && textures[texture].surface in surfaces
      reads this
    {
      PushNow(convert, transform, quad, texture, textures[texture], surfaces[textures[texture].surface])
    }

    /** A push joins the batch, or starts the next one when there is no slot for its texture. */
    ghost predicate Pushed(batches0: seq<seq<Push>>, pending0: seq<Push>, slots0: seq<nat>, texture: nat, p: Push)
      reads this
    {
      if Fits(texture, slots0) then Keeps(batches0, pending0 + [p], slots0, texture)
      else batches == AfterFlush(batches0, pending0) && pending == [p] && slots == [texture]
    }

    /**
      Pushes a quad of a cached texture. An image is uploaded now; an atlas when the batch is drawn.
      Either way the push counts with the rows that its surface has now.
     */
    method PushTexture(quad: Quad, texture: nat) returns (ok: bool)
      requires Valid() && texture in textures && textures[texture].surface in surfaces
      modifies this
      ensures Valid() && ok && surfaces == old(surfaces) && epoch == old(epoch) && transform == old(transform)
      ensures SameSources(old(textures), textures)
      ensures Pushed(old(batches), old(pending), old(slots), texture, old(PushOf(quad, texture)))
    {
      hide AllDrawn, PendingShown, AllCarry, Placed, ShownBut, RowsNow, Tracks, Updated, Shows, SameTextures,
           GenerationsAgree, PushedBefore;
      var t := textures[texture];
      var s := surfaces[t.surface];
      ghost var p := PushOf(quad, texture);
      ShownMeansBut(convert, textures, surfaces, slots, pending, texture);
      if !textures[texture].atlas {
        UpdateShows(convert, t, s, frameIndex, epoch);
        TrackedSizes(convert, t, s, epoch);
        var r := UpdateTexture(convert, textures[texture], s, frameIndex, epoch);
        if r.None? {
          return false;
        }
        TrackedSizes(convert, r.value, s, epoch);
        ShownRows(convert, r.value, s);
        SameRows(convert, t, r.value, s);
        UploadedBut(convert, textures, surfaces, slots, pending, texture, r.value);
        SameSourcesPushed(convert, textures, textures[texture := r.value], surfaces, pending);
        textures := textures[texture := r.value];
      }
      ghost var before := textures;
      assert PushOf(quad, texture) == p;
      ok := QueueTextured(quad, texture);
      SameKeys(before, textures);
      SameSourcesAfter(before, textures);
    }

    /** A surface appears. */
    method AddSurface(id: nat, surface: Surface)
      requires Valid() && id !in surfaces
      modifies this`surfaces
      ensures Valid() && surfaces == old(surfaces)[id := surface]
    {
      hide AllDrawn, AllCarry, Tracks, StillShown, RowsNow;
      surfaces := surfaces[id := surface];
    }

    /** A surface gets new content, under a new generation. */
    method AdvanceSurface(id: nat, next: Surface)
      requires Valid() && id in surfaces && Advances(surfaces[id], next)
      modifies this`surfaces, this`epoch
      ensures Valid() && surfaces == old(surfaces)[id := next]
    {
      hide AllDrawn, PendingShown, AllCarry, TexturesTrack, Advances, PushedBefore;
      AdvancePushed(convert, textures, surfaces, pending, id, next);
      AdvanceKeepsTextures(convert, textures, surfaces, epoch, id, next);
      AdvanceKeepsPending(convert, textures, surfaces, epoch, slots, pending, id, next);
      surfaces := surfaces[id := next];
      epoch := epoch + 1;
    }

    method AddTexture(id: nat, surface: nat, mode: nat, gpu: seq<Row>)
      requires Valid() && id !in textures && surface in surfaces && |gpu| == |surfaces[surface].rows| > 0
      requires surfaces[surface].generation >= 1 && surfaces[surface].glyphRows <= |surfaces[surface].rows|
      modifies this`textures
      ensures Valid() && textures == old(textures)[id := Created(surface, surfaces[surface], mode, gpu)]
    {
      hide AllDrawn, AllCarry, Tracks, StillShown, RowsNow;
      CreatedTracks(convert, surface, surfaces[surface], mode, gpu, epoch);
      textures := textures[id := Created(surface, surfaces[surface], mode, gpu)];
    }

    /** A new frame starts without pending quads, and without a transform. */
    method BeginFrame()
      requires Valid()
      modifies this
      ensures Valid() && pending == [] && slots == [] && draws == old(draws) && batches == old(batches)
              && transform == IDENTITY
      ensures textures == old(textures) && surfaces == old(surfaces)
    {
      hide AllDrawn, TexturesTrack, PendingShown, AllCarry, GenerationsAgree, PushedBefore;
      frameIndex := frameIndex + 1;
      instances, slots, lastTexture, pending := [], [], None, [];
      transform := IDENTITY;
      NothingPending(convert, textures, surfaces);
    }

    method FindSlot(texture: nat) returns (slot: int)
      ensures slot < |slots|
      ensures slot >= 0 ==> slots[slot] == texture
      ensures slot < 0 ==> texture !in slots
    {
      for i := 0 to |slots|
        invariant texture !in slots[..i]
      {
        if slots[i] == texture {
          return i;
        }
      }
      return -1;
    }
  }

  /** Updates change what an atlas shows, not what it is of. */
  predicate SameTexture(t: Texture, u: Texture) {
    u.surface == t.surface && u.mode == t.mode && u.atlas == t.atlas && (!t.atlas ==> u == t)
  }

  predicate SameTextures(before: map<nat, Texture>, after: map<nat, Texture>) {
    after.Keys == before.Keys && forall t :: t in after ==> SameTexture(before[t], after[t])
  }

  lemma NothingChanged(textures: map<nat, Texture>)
    ensures SameTextures(textures, textures)
  {
  }

  lemma SameKeys(before: map<nat, Texture>, after: map<nat, Texture>)
    requires SameTextures(before, after)
    ensures after.Keys == before.Keys
  {
  }

  lemma CarrySizes(quads: seq<Quad>, slots: seq<nat>, pushes: seq<Push>)
    requires AllCarry(quads, slots, pushes)
    ensures |quads| == |pushes|
  {
  }

  lemma SlotsExist(
    convert: (nat, Row) -> Row, textures: map<nat, Texture>, surfaces: map<nat, Surface>, slots: seq<nat>,
      pending: seq<Push>)
    requires PendingShown(convert, textures, surfaces, slots, pending)
    ensures forall i :: 0 <= i < |slots| ==> slots[i] in textures
  {
  }

  lemma TrackedSizes(convert: (nat, Row) -> Row, t: Texture, s: Surface, epoch: nat)
    requires Tracks(convert, t, s, epoch)
    ensures |t.gpu| == |s.rows|
  {
  }

  lemma NothingPending(convert: (nat, Row) -> Row, textures: map<nat, Texture>, surfaces: map<nat, Surface>)
    ensures AllCarry([], [], []) && PendingShown(convert, textures, surfaces, [], [])
    ensures PushedBefore(convert, textures, surfaces, []) && GenerationsAgree([])
  {
  }

  lemma AppendDraw(draws: seq<Draw>, batches: seq<seq<Push>>, draw: Draw, batch: seq<Push>)
    requires AllDrawn(draws, batches) && Draws(draw, batch) && GenerationsAgree(batch)
    ensures AllDrawn(draws + [draw], batches + [batch])
  {
    hide Draws, GenerationsAgree;
  }

  // ---- Pushes and generations ----

  lemma PushedPlain(convert: (nat, Row) -> Row, textures: map<nat, Texture>, surfaces: map<nat, Surface>,
                    pending: seq<Push>, p: Push)
    requires PushedBefore(convert, textures, surfaces, pending) && GenerationsAgree(pending) && p.texture == None
    ensures PushedBefore(convert, textures, surfaces, pending + [p]) && GenerationsAgree(pending + [p])
  {
    hide PushedBeforeOne;
  }

  lemma PushedTextured(
    convert: (nat, Row) -> Row, textures: map<nat, Texture>, surfaces: map<nat, Surface>, pending: seq<Push>,
      texture: nat, p: Push)
    requires PushedBefore(convert, textures, surfaces, pending) && GenerationsAgree(pending)
    requires texture in textures && p.texture == Some(texture) && textures[texture].surface in surfaces
    requires
      var s := surfaces[textures[texture].surface];
      p.generation == s.generation && p.rows == RowsNow(convert, textures[texture], s)
    ensures PushedBefore(convert, textures, surfaces, pending + [p]) && GenerationsAgree(pending + [p])
  {
    hide RowsNow;
  }

  /** Textures of the same surfaces, in the same modes. */
  predicate SameSources(before: map<nat, Texture>, after: map<nat, Texture>) {
    && after.Keys == before.Keys
    && forall t :: t in after ==>
         after[t].surface == before[t].surface && after[t].mode == before[t].mode && after[t].atlas == before[t].atlas
  }

  lemma SameSourcesPushed(
    convert: (nat, Row) -> Row, before: map<nat, Texture>, after: map<nat, Texture>, surfaces: map<nat, Surface>,
      pending: seq<Push>)
    requires PushedBefore(convert, before, surfaces, pending) && SameSources(before, after)
    ensures PushedBefore(convert, after, surfaces, pending)
  {
    forall k | 0 <= k < |pending| && pending[k].texture.Some?
      ensures pending[k].texture.value in after
      ensures PushedBeforeOne(convert, after[pending[k].texture.value], surfaces, pending[k])
    {
      var texture := pending[k].texture.value;
      if before[texture].surface in surfaces {
        SameRows(convert, before[texture], after[texture], surfaces[before[texture].surface]);
      }
    }
  }

  lemma SameSourcesAfter(before: map<nat, Texture>, after: map<nat, Texture>)
    requires SameTextures(before, after)
    ensures SameSources(before, after)
  {
  }

  lemma AdvancePushed(
    convert: (nat, Row) -> Row, textures: map<nat, Texture>, surfaces: map<nat, Surface>, pending: seq<Push>, id: nat,
      next: Surface)
    requires PushedBefore(convert, textures, surfaces, pending) && id in surfaces && Advances(surfaces[id], next)
    ensures PushedBefore(convert, textures, surfaces[id := next], pending)
  {
    hide RowsNow;
  }

  /** The draw call of a batch, with its atlases brought up to date, draws the batch. */
  lemma DrawIsRight(
    convert: (nat, Row) -> Row, before: map<nat, Texture>, textures: map<nat, Texture>, surfaces: map<nat, Surface>,
    pending: seq<Push>, draw: Draw)
    requires PendingShown(convert, before, surfaces, draw.slots, pending) && AllCarry(draw.quads, draw.slots, pending)
    requires SameTextures(before, textures)
    requires |draw.contents| == |draw.slots|
    requires forall i :: 0 <= i < |draw.slots| ==>
             draw.slots[i] in textures && draw.contents[i] == textures[draw.slots[i]].gpu
    requires forall i :: 0 <= i < |draw.slots| ==>
               var t := textures[draw.slots[i]];
               t.atlas ==>
                 t.surface in surfaces && Shows(convert, t, surfaces[t.surface], surfaces[t.surface].glyphRows)
    ensures Draws(draw, pending)
  {
    hide AllCarry, Shows, StillShown, SlotShows;
    forall i | 0 <= i < |draw.slots| ensures SlotShows(draw.contents[i], draw.slots[i], pending) {
      var id := draw.slots[i];
      var t := textures[id];
      var s := surfaces[t.surface];
      StillShownAfter(convert, before[id], t, s, id, pending);
      DrawnShows(convert, t, s, id, pending);
    }
  }

  lemma StillShownAfter(convert: (nat, Row) -> Row, before: Texture, t: Texture, s: Surface, texture: nat,
                        pending: seq<Push>)
    requires StillShown(convert, before, s, texture, pending) && SameTexture(before, t)
    ensures StillShown(convert, t, s, texture, pending)
  {
  }

  /** A push whose texture is not among these slots, or has none. */
  lemma OthersStillShown(
    convert: (nat, Row) -> Row, textures: map<nat, Texture>, surfaces: map<nat, Surface>, slots: seq<nat>,
      pending: seq<Push>,
    p: Push)
    requires PendingShown(convert, textures, surfaces, slots, pending) && p.texture == None
    ensures PendingShown(convert, textures, surfaces, slots, pending + [p])
  {
    hide StillShown;
    forall i | 0 <= i < |slots|
      ensures StillShown(convert, textures[slots[i]], surfaces[textures[slots[i]].surface], slots[i], pending + [p])
    {
      OtherPush(convert, textures[slots[i]], surfaces[textures[slots[i]].surface], slots[i], pending, p);
    }
  }

  /** The pending quads of all slots are still to be shown, but perhaps those of an image that was just uploaded. */
  ghost predicate ShownBut(
    convert: (nat, Row) -> Row, textures: map<nat, Texture>, surfaces: map<nat, Surface>, slots: seq<nat>,
      pending: seq<Push>, texture: nat)
  {
    forall i :: 0 <= i < |slots| ==>
      && slots[i] in textures && textures[slots[i]].surface in surfaces
      && var t := textures[slots[i]];
         var s := surfaces[t.surface];
         if slots[i] == texture then StillThere(convert, t, s, texture, pending)
         else StillShown(convert, t, s, slots[i], pending)
  }

  lemma ShownMeansBut(
    convert: (nat, Row) -> Row, textures: map<nat, Texture>, surfaces: map<nat, Surface>, slots: seq<nat>,
      pending: seq<Push>, texture: nat)
    requires PendingShown(convert, textures, surfaces, slots, pending)
    ensures ShownBut(convert, textures, surfaces, slots, pending, texture)
  {
    hide StillThere, Uses;
  }

  lemma ShownWithout(
    convert: (nat, Row) -> Row, textures: map<nat, Texture>, surfaces: map<nat, Surface>, slots: seq<nat>,
      pending: seq<Push>, texture: nat)
    requires ShownBut(convert, textures, surfaces, slots, pending, texture) && texture !in slots
    ensures PendingShown(convert, textures, surfaces, slots, pending)
  {
    hide StillThere, StillShown, Uses;
  }

  /** Uploading an image only touches its own pending quads. */
  lemma UploadedBut(
    convert: (nat, Row) -> Row, textures: map<nat, Texture>, surfaces: map<nat, Surface>, slots: seq<nat>,
      pending: seq<Push>,
    texture: nat, u: Texture)
    requires PendingShown(convert, textures, surfaces, slots, pending) && texture in textures
    requires var t := textures[texture]; u.surface == t.surface && u.mode == t.mode && u.atlas == t.atlas
    ensures ShownBut(convert, textures[texture := u], surfaces, slots, pending, texture)
  {
    hide Uses, LastRows;
  }

  /** A new slot leaves the quads of the others where they are. */
  lemma NewSlot(
    convert: (nat, Row) -> Row, textures: map<nat, Texture>, surfaces: map<nat, Surface>, epoch: nat,
    quads: seq<Quad>, slots: seq<nat>, pending: seq<Push>, texture: nat)
    requires TexturesTrack(convert, textures, surfaces, epoch) && texture in textures
    requires AllCarry(quads, slots, pending) && PendingShown(convert, textures, surfaces, slots, pending)
             && texture !in slots
    ensures AllCarry(quads, slots + [texture], pending)
    ensures ShownBut(convert, textures, surfaces, slots + [texture], pending, texture)
  {
    hide StillShown, Tracks;
    ShownMeansBut(convert, textures, surfaces, slots, pending, texture);
    hide StillThere;
    var more := slots + [texture];
    forall k | 0 <= k < |quads| ensures Carries(quads[k], more, pending[k]) {
      assert Carries(quads[k], slots, pending[k]);
    }
    forall i | 0 <= i < |slots| ensures more[i] == slots[i] {
    }
  }

  lemma SameRowsNow(convert: (nat, Row) -> Row, t: Texture, u: Texture, s: Surface)
    requires SameTexture(t, u)
    ensures RowsNow(convert, t, s) == RowsNow(convert, u, s)
  {
  }

  /** After a push of what its texture shows now, all pending quads are still to be shown. */
  lemma AllShown(
    convert: (nat, Row) -> Row, textures: map<nat, Texture>, surfaces: map<nat, Surface>, epoch: nat, slots: seq<nat>,
      pending: seq<Push>,
    texture: nat, p: Push)
    requires TexturesTrack(convert, textures, surfaces, epoch)
             && ShownBut(convert, textures, surfaces, slots, pending, texture)
    requires texture in textures && p.texture == Some(texture) && p.atlas == textures[texture].atlas
    requires textures[texture].surface in surfaces
    requires p.rows == RowsNow(convert, textures[texture], surfaces[textures[texture].surface])
    requires !textures[texture].atlas ==> textures[texture].gpu == p.rows
    ensures PendingShown(convert, textures, surfaces, slots, pending + [p])
  {
    hide StillShown, StillThere, Uses, Tracks, RowsNow;
    forall i | 0 <= i < |slots|
      ensures StillShown(convert, textures[slots[i]], surfaces[textures[slots[i]].surface], slots[i], pending + [p])
    {
      var t := textures[slots[i]];
      var s := surfaces[t.surface];
      if slots[i] == texture {
        TrackedRows(convert, t, s, epoch);
        AtlasRowsNow(convert, t, s);
        OwnPush(convert, t, s, texture, pending, p);
      } else {
        OtherPush(convert, t, s, slots[i], pending, p);
      }
    }
  }

  lemma AtlasRowsNow(convert: (nat, Row) -> Row, t: Texture, s: Surface)
    requires t.atlas ==> 0 <= s.glyphRows <= |s.rows|
    ensures t.atlas ==> RowsNow(convert, t, s) == Converted(convert, t.mode, s.rows[..s.glyphRows])
  {
  }

  lemma SameAt(before: map<nat, Texture>, after: map<nat, Texture>, t: nat)
    requires SameTextures(before, after) && t in before
    ensures t in after && SameTexture(before[t], after[t])
  {
  }

  lemma SameRows(convert: (nat, Row) -> Row, t: Texture, u: Texture, s: Surface)
    requires u.mode == t.mode && u.atlas == t.atlas
    ensures RowsNow(convert, t, s) == RowsNow(convert, u, s)
  {
  }

  lemma AdvanceKeepsPending(
    convert: (nat, Row) -> Row, textures: map<nat, Texture>, surfaces: map<nat, Surface>, epoch: nat, slots: seq<nat>,
      pending: seq<Push>,
    id: nat, next: Surface)
    requires TexturesTrack(convert, textures, surfaces, epoch)
             && PendingShown(convert, textures, surfaces, slots, pending)
    requires id in surfaces && Advances(surfaces[id], next)
    ensures PendingShown(convert, textures, surfaces[id := next], slots, pending)
  {
    hide StillThere, Tracks;
    forall i | 0 <= i < |slots|
      ensures StillShown(convert, textures[slots[i]], surfaces[id := next][textures[slots[i]].surface], slots[i],
              pending)
    {
      var t := textures[slots[i]];
      if t.surface == id {
        TrackedRows(convert, t, surfaces[id], epoch);
        AdvanceKeepsThere(convert, t, surfaces[id], next, slots[i], pending);
      }
    }
  }

  lemma AdvanceKeepsThere(convert: (nat, Row) -> Row, t: Texture, s: Surface, next: Surface, texture: nat,
                          pending: seq<Push>)
    requires StillThere(convert, t, s, texture, pending) && Advances(s, next)
             && (t.atlas ==> 0 <= s.glyphRows <= |s.rows|)
    ensures StillThere(convert, t, next, texture, pending)
  {
    if t.atlas {
      AdvanceKeepsRows(convert, t.mode, s, next);
    }
  }

  /** What a draw shows for a push: the contents bound to the slot of its instance. */
  function ShownFor(d: Draw, k: nat): seq<Row>
    requires k < |d.quads| && 0 <= SlotOf(d.quads[k]) < |d.contents|
  {
    d.contents[SlotOf(d.quads[k])]
  }

  /** An atlas quad is drawn with all the rows that it was pushed with. */
  lemma AtlasDrawnAsPushed(d: Draw, batch: seq<Push>, k: nat)
    requires Draws(d, batch) && k < |batch| && batch[k].texture.Some? && batch[k].atlas
    ensures 0 <= SlotOf(d.quads[k]) < |d.contents| && batch[k].rows <= ShownFor(d, k)
  {
    assert Carries(d.quads[k], d.slots, batch[k]);
    assert SlotShows(d.contents[SlotOf(d.quads[k])], batch[k].texture.value, batch);
  }

  /** The last push of a texture in a batch. */
  predicate IsLastPush(batch: seq<Push>, texture: nat, m: int) {
    && 0 <= m < |batch| && batch[m].texture == Some(texture)
    && forall j :: m < j < |batch| ==> batch[j].texture != Some(texture)
  }

  lemma {:induction false} LastPush(batch: seq<Push>, texture: nat, k: nat) returns (m: nat)
    requires k < |batch| && batch[k].texture == Some(texture)
    ensures IsLastPush(batch, texture, m) && k <= m && LastRows(batch, texture) == batch[m].rows
  {
    var last := |batch| - 1;
    if batch[last].texture == Some(texture) {
      m := last;
    } else {
      m := LastPush(batch[..last], texture, k);
      forall j | m < j < |batch| ensures batch[j].texture != Some(texture) {
        if j < last {
          assert batch[..last][j] == batch[j];
        }
      }
    }
  }

  /**
    An image is drawn with the rows of its last push in the batch. So it is drawn as it was pushed
    exactly when those rows are the same, and surely when its surface did not advance in between.
   */
  lemma ImageDrawnAsLastPushed(d: Draw, batch: seq<Push>, k: nat)
    requires Draws(d, batch) && GenerationsAgree(batch)
    requires k < |batch| && batch[k].texture.Some? && !batch[k].atlas
    ensures 0 <= SlotOf(d.quads[k]) < |d.contents|
    ensures exists m :: IsLastPush(batch, batch[k].texture.value, m) && k <= m
                        && (ShownFor(d, k) == batch[k].rows <==> batch[m].rows == batch[k].rows)
                        && (batch[m].generation == batch[k].generation ==> ShownFor(d, k) == batch[k].rows)
  {
    assert Carries(d.quads[k], d.slots, batch[k]);
    assert SlotShows(d.contents[SlotOf(d.quads[k])], batch[k].texture.value, batch);
    var m := LastPush(batch, batch[k].texture.value, k);
    assert k < m && batch[m].generation == batch[k].generation ==> SameGeneration(batch[k], batch[m]);
  }

  /** Two pushes of one texture in one batch, and its surface advances in between. */
  method PushTwice(batcher: QuadBatcher, quad: Quad, texture: nat, next: Surface)
    returns (draw: Draw, ghost batch: seq<Push>)
    requires batcher.Valid() && batcher.pending == [] && batcher.slots == [] && texture in batcher.textures
    requires
      var t := batcher.textures[texture];
      t.surface in batcher.surfaces && Advances(batcher.surfaces[t.surface], next)
    modifies batcher
    ensures batcher.Valid() && batcher.pending == [] && Draws(draw, batch) && |batch| == 2
    ensures
      var t := old(batcher.textures[texture]);
      && (forall k :: 0 <= k < 2 ==> batch[k].texture == Some(texture) && batch[k].atlas == t.atlas)
      && batch[0].rows == RowsNow(batcher.convert, t, old(batcher.surfaces)[t.surface])
      && batch[1].rows == RowsNow(batcher.convert, t, next)
  {
    hide AllDrawn, TexturesTrack, PendingShown, PushedBefore, GenerationsAgree, Draws, Placed, RowsNow, AllCarry,
         Advances, Distinct, SlotOf, ShownFor, Tracks, Updated, UpdateKey;
    ghost var t, batches := batcher.textures[texture], batcher.batches;
    var ok := batcher.PushTexture(quad, texture);
    assert |batcher.pending| == 1;
    assert batcher.pending[0].rows == RowsNow(batcher.convert, t, batcher.surfaces[t.surface]);
    SameRows(batcher.convert, t, batcher.textures[texture], next);
    batcher.AdvanceSurface(batcher.textures[texture].surface, next);
    ghost var first := batcher.pending[0];
    ok := batcher.PushTexture(quad, texture);
    batch := batcher.pending;
    assert |batch| == 2 && batch[0] == first;
    ok := batcher.Flush();
    LastDraw(batcher.draws, batcher.batches, batch);
    draw := batcher.draws[|batcher.draws| - 1];
  }

  /** An image that changes between two pushes of one batch is drawn changed both times. */
  method PushChangePush(batcher: QuadBatcher, quad: Quad, texture: nat, next: Surface)
    returns (draw: Draw, ghost batch: seq<Push>)
    requires batcher.Valid() && batcher.pending == [] && batcher.slots == [] && texture in batcher.textures
    requires
      var t := batcher.textures[texture];
      !t.atlas && t.surface in batcher.surfaces && Advances(batcher.surfaces[t.surface], next)
    modifies batcher
    ensures batcher.Valid() && batcher.pending == [] && Draws(draw, batch)
    ensures |batch| == |draw.quads| == 2 && 0 <= SlotOf(draw.quads[0]) < |draw.contents|
    ensures
      var t := old(batcher.textures[texture]);
      && batch[0].rows == RowsNow(batcher.convert, t, old(batcher.surfaces)[t.surface])
      && ShownFor(draw, 0) == batch[1].rows == RowsNow(batcher.convert, t, next)
  {
    hide QuadBatcher.Valid, RowsNow, Draws, Advances;
    draw, batch := PushTwice(batcher, quad, texture, next);
    DrawnTwice(draw, batch, texture);
  }

  /** From the start: the image shows one row, then another. */
  method DrawChangedImage(convert: (nat, Row) -> Row, quad: Quad, first: Row, second: Row)
    returns (draw: Draw, ghost batch: seq<Push>)
    ensures |batch| == |draw.quads| == 2 && Draws(draw, batch)
    ensures batch[0].rows == [convert(IMAGE_TEXTURE, first)]
    ensures 0 <= SlotOf(draw.quads[0]) < |draw.contents| && ShownFor(draw, 0) == [convert(IMAGE_TEXTURE, second)]
  {
    var batcher := new QuadBatcher(convert);
    var before, after := Surface([first], 1, -1), Surface([second], 2, -1);
    batcher.AddSurface(0, before);
    batcher.AddTexture(0, 0, IMAGE_TEXTURE, [[]]);
    ImageRows(convert, batcher.textures[0], before, first);
    ImageRows(convert, batcher.textures[0], after, second);
    hide RowsNow, Draws, AllDrawn, TexturesTrack, PendingShown, PushedBefore, GenerationsAgree, AllCarry;
    draw, batch := PushChangePush(batcher, quad, 0, after);
  }

  /** From the start: a glyph is appended to an atlas between two pushes, and the draw shows both glyphs. */
  method DrawGrownAtlas(convert: (nat, Row) -> Row, quad: Quad, first: Row, second: Row, blank: Row)
    returns (draw: Draw, ghost batch: seq<Push>)
    ensures |batch| == |draw.quads| == 2 && Draws(draw, batch)
    ensures forall k :: 0 <= k < 2 ==> 0 <= SlotOf(draw.quads[k]) < |draw.contents|
    ensures [convert(0, first)] <= ShownFor(draw, 0) && [convert(0, first), convert(0, second)] <= ShownFor(draw, 1)
  {
    var batcher := new QuadBatcher(convert);
    var before, after := Surface([first, blank], 1, 1), Surface([first, second], 2, 2);
    batcher.AddSurface(0, before);
    batcher.AddTexture(0, 0, 0, [[], []]);
    AtlasRows(convert, batcher.textures[0], before, after);
    hide RowsNow, Draws, AllDrawn, TexturesTrack, PendingShown, PushedBefore, GenerationsAgree, AllCarry;
    draw, batch := PushTwice(batcher, quad, 0, after);
    DrawnBatch(draw, batch);
    AtlasDrawnAsPushed(draw, batch, 0);
    AtlasDrawnAsPushed(draw, batch, 1);
  }

  lemma DrawnBatch(d: Draw, batch: seq<Push>)
    requires Draws(d, batch)
    ensures |d.quads| == |batch|
  {
  }

  lemma AtlasRows(convert: (nat, Row) -> Row, t: Texture, before: Surface, after: Surface)
    requires t.atlas && t.mode == 0 && |before.rows| == |after.rows| == 2 && before.glyphRows == 1
    requires after.glyphRows == 2
    ensures RowsNow(convert, t, before) == [convert(0, before.rows[0])]
    ensures RowsNow(convert, t, after) == [convert(0, after.rows[0]), convert(0, after.rows[1])]
  {
  }

  lemma ImageRows(convert: (nat, Row) -> Row, t: Texture, s: Surface, row: Row)
    requires !t.atlas && t.mode == IMAGE_TEXTURE && s.rows == [row]
    ensures RowsNow(convert, t, s) == [convert(IMAGE_TEXTURE, row)]
  {
  }

  lemma LastDraw(draws: seq<Draw>, batches: seq<seq<Push>>, batch: seq<Push>)
    requires AllDrawn(draws, batches) && batches != [] && batches[|batches| - 1] == batch
    ensures draws != [] && Draws(draws[|draws| - 1], batch)
  {
  }

  lemma DrawnTwice(d: Draw, batch: seq<Push>, texture: nat)
    requires Draws(d, batch) && |batch| == 2
    requires forall k :: 0 <= k < 2 ==> batch[k].texture == Some(texture) && !batch[k].atlas
    ensures |d.quads| == 2 && 0 <= SlotOf(d.quads[0]) < |d.contents| && ShownFor(d, 0) == batch[1].rows
  {
    assert Carries(d.quads[0], d.slots, batch[0]);
    assert SlotShows(d.contents[SlotOf(d.quads[0])], texture, batch);
  }

  function DrawnQuads(draws: seq<Draw>): seq<Quad> {
    if draws == [] then [] else DrawnQuads(draws[..|draws| - 1]) + draws[|draws| - 1].quads
  }

  /** The instances of all draw calls are the pushed quads, in order; only `pad0` of a textured one is its slot. */
  lemma {:induction false} DrawnInOrder(draws: seq<Draw>, batches: seq<seq<Push>>)
    requires AllDrawn(draws, batches)
    ensures |DrawnQuads(draws)| == |Flatten(batches)|
    ensures forall k :: 0 <= k < |DrawnQuads(draws)| ==>
              var q, p := DrawnQuads(draws)[k], Flatten(batches)[k];
              q == if p.texture.Some? then p.quad.(pad0 := q.pad0) else p.quad
    decreases |draws|
  {
    if draws != [] {
      var last := |draws| - 1;
      hide Draws;
      DrawnInOrder(draws[..last], batches[..last]);
      var d, batch := draws[last], batches[last];
      assert Draws(d, batch);
    }
  }
}
