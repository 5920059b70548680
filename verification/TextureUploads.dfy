/**
  Cached textures and the surfaces that they show. A glyph atlas only appends rows, so
  its uploads can wait for the draw; other surfaces are uploaded when they are pushed.
 */
module TextureUploads {
  import opened Wrappers

  const IMAGE_TEXTURE := 3

  type Row = seq<int>

  /** The pixels of a surface. A negative generation or row count means that the property is absent. */
  datatype Surface = Surface(rows: seq<Row>, generation: int, glyphRows: int)

  datatype Texture = Texture(
    surface: nat, mode: nat, gpu: seq<Row>, lastUpdate: nat, checkedFrame: nat, checkedEpoch: nat,
    uploadedRows: nat, atlas: bool)

  /** Rows as the GPU keeps them; `convert` is the pixel conversion of a mode. */
  function Converted(convert: (nat, Row) -> Row, mode: nat, rows: seq<Row>): (r: seq<Row>)
    ensures |r| == |rows| && forall k :: 0 <= k < |r| ==> r[k] == convert(mode, rows[k])
  {
    seq(|rows|, k requires 0 <= k < |rows| => convert(mode, rows[k]))
  }

  /** A new texture has nothing uploaded. */
  function Created(id: nat, s: Surface, mode: nat, gpu: seq<Row>): Texture {
    Texture(id, mode, gpu, 0, 0, 0, 0, mode < IMAGE_TEXTURE && s.glyphRows >= 0)
  }

  function UpdateKey(s: Surface, frame: nat): nat {
    if s.generation >= 0 then s.generation else frame
  }

  /** The rows that an update uploads: all, or those appended since the last one. */
  function DirtyRows(t: Texture, s: Surface): (int, int) {
    if t.mode < IMAGE_TEXTURE && 0 <= s.glyphRows <= |s.rows| && t.lastUpdate != 0 then (t.uploadedRows, s.glyphRows)
    else (0, |s.rows|)
  }

  predicate SkipsCheck(t: Texture, frame: nat, epoch: nat) {
    t.checkedFrame != 0 && t.checkedFrame == frame && t.checkedEpoch == epoch
  }

  /** The texture after an update; None when there is nothing to upload although the surface changed. */
  function Updated(convert: (nat, Row) -> Row, t: Texture, s: Surface, frame: nat, epoch: nat): Option<Texture>
    requires |t.gpu| == |s.rows|
  {
    if |s.rows| == 0 then None
    else if SkipsCheck(t, frame, epoch) then Some(t)
    else if t.lastUpdate == UpdateKey(s, frame) then Some(t.(checkedFrame := frame, checkedEpoch := epoch))
    else
      var (first, last) := DirtyRows(t, s);
      if last <= first then None
      else
        Some(t.(gpu := t.gpu[..first] + Converted(convert, t.mode, s.rows)[first..last] + t.gpu[last..],
                lastUpdate := UpdateKey(s, frame), uploadedRows := if s.glyphRows >= 0 then s.glyphRows else 0,
                checkedFrame := frame, checkedEpoch := epoch))
  }

  /** Uploads row by row through a scratch buffer. */
  method UpdateTexture(convert: (nat, Row) -> Row, t: Texture, s: Surface, frame: nat, epoch: nat)
    returns (r: Option<Texture>)
    requires |t.gpu| == |s.rows|
    ensures r == Updated(convert, t, s, frame, epoch)
  {
    if |s.rows| == 0 {
      return None;
    }
    if t.checkedFrame != 0 && t.checkedFrame == frame && t.checkedEpoch == epoch {
      return Some(t);
    }
    var key := if s.generation >= 0 then s.generation else frame;
    if t.lastUpdate == key {
      return Some(t.(checkedFrame := frame, checkedEpoch := epoch));
    }
    var first: nat, last := 0, |s.rows|;
    if t.mode < IMAGE_TEXTURE && s.glyphRows >= 0 && s.glyphRows <= |s.rows| && t.lastUpdate != 0 {
      first, last := t.uploadedRows, s.glyphRows;
    }
    var height := last - first;
    if height <= 0 {
      return None;
    }
    var scratch: seq<Row> := [];
    for y := 0 to height
      invariant scratch == Converted(convert, t.mode, s.rows)[first..first + y]
    {
      scratch := scratch + [convert(t.mode, s.rows[y + first])];
    }
    r := Some(t.(gpu := t.gpu[..first] + scratch + t.gpu[last..], lastUpdate := key,
                 uploadedRows := if s.glyphRows >= 0 then s.glyphRows else 0,
                 checkedFrame := frame, checkedEpoch := epoch));
  }

  /**
    A texture that can be brought up to date: its surface numbers its changes from one, an
    atlas has appended rows with every new generation, and what was uploaded still is there.
   */
  ghost predicate Tracks(convert: (nat, Row) -> Row, t: Texture, s: Surface, epoch: nat) {
    && |t.gpu| == |s.rows| > 0 && s.generation >= 1 && t.lastUpdate <= s.generation && t.checkedEpoch <= epoch
    && (t.checkedFrame != 0 && t.checkedEpoch == epoch ==> t.lastUpdate == s.generation)
    && (if t.atlas then
          && t.mode < IMAGE_TEXTURE && 0 <= s.glyphRows <= |s.rows|
          && (t.lastUpdate != 0 ==> Shows(convert, t, s, t.uploadedRows))
          && (t.lastUpdate == s.generation ==> t.uploadedRows == s.glyphRows)
          && (0 < t.lastUpdate < s.generation ==> t.uploadedRows < s.glyphRows)
        else
          && (t.mode < IMAGE_TEXTURE ==> s.glyphRows < 0)
          && (t.lastUpdate == s.generation ==> Shows(convert, t, s, |s.rows|)))
  }

  /** The texture shows the first rows of its surface. */
  ghost predicate Shows(convert: (nat, Row) -> Row, t: Texture, s: Surface, rows: int) {
    rows <= |t.gpu| && rows <= |s.rows| && forall k :: 0 <= k < rows ==> t.gpu[k] == convert(t.mode, s.rows[k])
  }

  /** What a quad of a texture may draw: the rows of an atlas that have glyphs, or the whole surface. */
  function VisibleRows(t: Texture, s: Surface): int {
    if t.atlas then s.glyphRows else |s.rows|
  }

  lemma CreatedTracks(convert: (nat, Row) -> Row, id: nat, s: Surface, mode: nat, gpu: seq<Row>, epoch: nat)
    requires |gpu| == |s.rows| > 0 && s.generation >= 1 && s.glyphRows <= |s.rows|
    ensures Tracks(convert, Created(id, s, mode, gpu), s, epoch)
  {
  }

  /**
    An update succeeds, and then the texture shows every row that can be drawn. `Tracks` assumes
    what the code leaves to the writers of surfaces: all of them number generations from one, and
    give an atlas a new row with every new generation.
   */
  lemma UpdateShows(convert: (nat, Row) -> Row, t: Texture, s: Surface, frame: nat, epoch: nat)
    requires Tracks(convert, t, s, epoch)
    ensures
      var r := Updated(convert, t, s, frame, epoch);
      && r.Some? && Tracks(convert, r.value, s, epoch) && Shows(convert, r.value, s, VisibleRows(t, s))
      && r.value.lastUpdate == s.generation
      && r.value.surface == t.surface && r.value.mode == t.mode && r.value.atlas == t.atlas
  {
  }

  /** A surface with new content: an atlas keeps its glyph rows and appends some. */
  predicate Advances(s: Surface, next: Surface) {
    && next.generation == s.generation + 1 && |next.rows| == |s.rows|
    && (s.glyphRows >= 0 ==>
          s.glyphRows < next.glyphRows <= |s.rows| && next.rows[..s.glyphRows] == s.rows[..s.glyphRows])
    && (s.glyphRows < 0 ==> next.glyphRows < 0)
  }

  lemma AdvanceTracks(convert: (nat, Row) -> Row, t: Texture, s: Surface, next: Surface, epoch: nat)
    requires Tracks(convert, t, s, epoch) && Advances(s, next)
    requires s.glyphRows <= |s.rows| && (t.atlas <==> t.mode < IMAGE_TEXTURE && s.glyphRows >= 0)
    ensures Tracks(convert, t, next, epoch + 1)
  {
    if t.atlas && t.lastUpdate != 0 {
      forall k | 0 <= k < t.uploadedRows ensures t.gpu[k] == convert(t.mode, next.rows[k]) {
        assert next.rows[..s.glyphRows][k] == s.rows[..s.glyphRows][k];
      }
    }
  }

  /** What a pushed atlas quad shows stays in the atlas. */
  lemma AdvanceKeepsRows(convert: (nat, Row) -> Row, mode: nat, s: Surface, next: Surface)
    requires Advances(s, next) && 0 <= s.glyphRows <= |s.rows|
    ensures Converted(convert, mode, s.rows[..s.glyphRows]) <= Converted(convert, mode, next.rows[..next.glyphRows])
  {
    forall k | 0 <= k < s.glyphRows
      ensures convert(mode, s.rows[k]) == convert(mode, next.rows[k])
    {
      assert next.rows[..s.glyphRows][k] == s.rows[..s.glyphRows][k];
    }
  }
}
