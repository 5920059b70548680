/**
  The fuzzy index: all texts in one arena, their normal forms in two more, and a
  search that keeps only the best results.
 */
module FuzzyIndexing {
  import opened Utf8
  import opened Wrappers
  import opened FoldedText
  import opened NormalizedText

  datatype Entry = Entry(textOffset: nat, matchOffset: nat, length: nat, basename: nat)

  /** Terminated strings, one after the other. */
  function Arena(parts: seq<seq<byte>>): seq<byte> {
    if parts == [] then [] else Arena(parts[..|parts| - 1]) + parts[|parts| - 1] + [0]
  }

  function Offset(parts: seq<seq<byte>>, i: nat): nat
    requires i <= |parts|
  {
    |Arena(parts[..i])|
  }

  lemma {:induction false} ArenaPrefix(parts: seq<seq<byte>>, i: nat)
    requires i <= |parts|
    ensures Arena(parts[..i]) <= Arena(parts)
    decreases |parts| - i
  {
    if i == |parts| {
      assert parts[..i] == parts;
    } else {
      ArenaPrefix(parts, i + 1);
      assert parts[..i + 1][..i] == parts[..i];
    }
  }

  /** The slices tile the arena: every string sits between its offset and the next one, with its terminator. */
  lemma {:induction false} SlicesTile(parts: seq<seq<byte>>, i: nat)
    requires i < |parts|
    ensures Offset(parts, i + 1) == Offset(parts, i) + |parts[i]| + 1 <= |Arena(parts)|
    ensures Arena(parts)[Offset(parts, i)..Offset(parts, i) + |parts[i]|] == parts[i]
    ensures Arena(parts)[Offset(parts, i) + |parts[i]|] == 0
    ensures Offset(parts, 0) == 0 && Offset(parts, |parts|) == |Arena(parts)|
  {
    ArenaPrefix(parts, i + 1);
    assert parts[..i + 1][..i] == parts[..i];
    assert parts[..0] == [] && parts[..|parts|] == parts;
    var whole := Arena(parts[..i]) + parts[i] + [0];
    assert whole[|Arena(parts[..i])|..|Arena(parts[..i])| + |parts[i]|] == parts[i];
  }

  ghost function NormalForms(u: Tables, mode: Mode, lower: bool, items: seq<seq<byte>>): (r: seq<seq<byte>>)
    requires u.Valid()
    ensures |r| == |items| && forall i :: 0 <= i < |r| ==> r[i] == NormalBytes(mode, lower, Folded(u, items[i]))
  {
    seq(|items|, i requires 0 <= i < |items| => NormalBytes(mode, lower, Folded(u, items[i])))
  }

  predicate IsSeparator(c: byte) {
    c == '/' as nat || c == '\\' as nat
  }

  /** The position after the last separator. */
  ghost predicate IsBasenameStart(text: seq<byte>, start: nat) {
    && start <= |text|
    && (start > 0 ==> IsSeparator(text[start - 1]))
    && forall k :: start <= k < |text| ==> !IsSeparator(text[k])
  }

  method BasenameStart(text: seq<byte>) returns (start: nat)
    ensures IsBasenameStart(text, start)
  {
    start := |text|;
    while start > 0 && !IsSeparator(text[start - 1])
      invariant start <= |text|
      invariant forall k :: start <= k < |text| ==> !IsSeparator(text[k])
    {
      start := start - 1;
    }
  }

  class FuzzyIndex {
    const mode: Mode
    const entries: seq<Entry>
    const textArena: array<byte>
    const matchArena: array<byte>
    const lowerArena: array<byte>

    constructor (mode: Mode, entries: seq<Entry>, textArena: array<byte>, matchArena: array<byte>,
                 lowerArena: array<byte>)
      ensures this.mode == mode && this.entries == entries
      ensures this.textArena == textArena && this.matchArena == matchArena && this.lowerArena == lowerArena
    {
      this.mode, this.entries := mode, entries;
      this.textArena, this.matchArena, this.lowerArena := textArena, matchArena, lowerArena;
    }

    /** The arenas hold the items and their normal forms, and every entry knows its places. */
    ghost predicate Holds(u: Tables, items: seq<seq<byte>>)
      requires u.Valid()
      reads textArena, matchArena, lowerArena
    {
      && textArena[..] == Arena(items)
      && matchArena[..] == Arena(NormalForms(u, mode, false, items))
      && lowerArena[..] == Arena(NormalForms(u, mode, true, items))
      && |entries| == |items|
      && forall i :: 0 <= i < |items| ==> Describes(u, mode, items, i, entries[i])
    }
  }

  ghost predicate Describes(u: Tables, mode: Mode, items: seq<seq<byte>>, i: nat, e: Entry)
    requires u.Valid() && i < |items|
  {
    var forms := NormalForms(u, mode, false, items);
    && e.textOffset == Offset(items, i)
    && e.matchOffset == Offset(forms, i)
    && e.length == |forms[i]|
    && IsBasenameStart(forms[i], e.basename)
  }

  lemma ArenaGrows(parts: seq<seq<byte>>, i: nat)
    requires i < |parts|
    ensures Offset(parts, i + 1) == Offset(parts, i) + |parts[i]| + 1 <= |Arena(parts)|
    ensures Arena(parts[..i + 1]) == Arena(parts[..i]) + parts[i] + [0]
  {
    SlicesTile(parts, i);
    assert parts[..i + 1][..i] == parts[..i];
  }

  lemma FormLength(u: Tables, mode: Mode, lower: bool, items: seq<seq<byte>>, i: nat)
    requires u.Valid() && i < |items|
    ensures |NormalForms(u, mode, lower, items)[i]| == |EncodeAll(Folded(u, items[i]))|
  {
  }

  /** The first pass: how long the arenas must be; it fails when a length does not fit 32 bits. */
  method MeasureArenas(u: Tables, mode: Mode, items: seq<seq<byte>>) returns (r: Option<(nat, nat)>)
    requires u.Valid()
    ensures
      var text, forms := |Arena(items)|, |Arena(NormalForms(u, mode, false, items))|;
      r == if text <= UINT32_MAX && forms <= UINT32_MAX then Some((text, forms)) else None
  {
    hide NormalForms, Folded, EncodeAll, Arena;
    ghost var forms := NormalForms(u, mode, false, items);
    var textLength, formLength := 0, 0;
    EmptyArena(items);
    EmptyArena(forms);
    for i := 0 to |items|
      invariant textLength == Offset(items, i) <= UINT32_MAX && formLength == Offset(forms, i) <= UINT32_MAX
    {
      ArenaGrows(items, i);
      ArenaGrows(forms, i);
      FormLength(u, mode, false, items, i);
      if |items[i]| > UINT32_MAX {
        return None;
      }
      var length := NormalizedLength(u, items[i]);
      if length.None? {
        return None;
      }
      textLength := textLength + |items[i]| + 1;
      formLength := formLength + length.value + 1;
      if textLength > UINT32_MAX || formLength > UINT32_MAX {
        return None;
      }
    }
    WholeArena(items);
    WholeArena(forms);
    return Some((textLength, formLength));
  }

  lemma EmptyArena(parts: seq<seq<byte>>)
    ensures Offset(parts, 0) == 0
  {
  }

  lemma WholeArena(parts: seq<seq<byte>>)
    ensures Offset(parts, |parts|) == |Arena(parts)| && parts[..|parts|] == parts
  {
  }

  /** Indexes the items, or fails when an arena would not fit 32 bits. */
  method Build(u: Tables, mode: Mode, items: seq<seq<byte>>) returns (r: Option<FuzzyIndex>)
    requires u.Valid()
    ensures r.Some? <==> |Arena(items)| <= UINT32_MAX && |Arena(NormalForms(u, mode, false, items))| <= UINT32_MAX
    ensures r.Some? ==> r.value.mode == mode && r.value.Holds(u, items)
  {
    hide NormalForms, Folded, EncodeAll, Arena;
    var sizes := MeasureArenas(u, mode, items);
    if sizes.None? {
      return None;
    }
    ghost var forms := NormalForms(u, mode, false, items);
    var textArena := new byte[sizes.value.0](_ => 0);
    var matchArena := new byte[sizes.value.1](_ => 0);
    var lowerArena := new byte[sizes.value.1](_ => 0);
    var entries: seq<Entry> := [];
    var textOffset, matchOffset := 0, 0;
    FillStart(u, mode, items, textArena[..], matchArena[..], lowerArena[..]);
    hide Filled, Overwrite, Describes, Offset, IsBasenameStart;
    for i := 0 to |items|
      invariant |entries| == i && textOffset == Offset(items, i) && matchOffset == Offset(forms, i)
      invariant Filled(u, mode, items, i, textArena[..], matchArena[..], lowerArena[..])
      invariant forall k :: 0 <= k < i ==> Describes(u, mode, items, k, entries[k])
    {
      var entry := AddItem(u, mode, items, i, textArena, matchArena, lowerArena, textOffset, matchOffset);
      entries := entries + [entry];
      textOffset := textOffset + |items[i]| + 1;
      matchOffset := matchOffset + entry.length + 1;
    }
    FillEnd(u, mode, items, textArena[..], matchArena[..], lowerArena[..]);
    var index := new FuzzyIndex(mode, entries, textArena, matchArena, lowerArena);
    return Some(index);
  }

  /** Copies one item into the arenas, behind those before it. */
  method AddItem(
    u: Tables, mode: Mode, items: seq<seq<byte>>, i: nat,
    textArena: array<byte>, matchArena: array<byte>, lowerArena: array<byte>, textOffset: nat, matchOffset: nat)
    returns (entry: Entry)
    requires u.Valid() && i < |items|
    requires textArena != matchArena && textArena != lowerArena && matchArena != lowerArena
    requires Filled(u, mode, items, i, textArena[..], matchArena[..], lowerArena[..])
    requires textOffset == Offset(items, i) && matchOffset == Offset(NormalForms(u, mode, false, items), i)
    modifies textArena, matchArena, lowerArena
    ensures Filled(u, mode, items, i + 1, textArena[..], matchArena[..], lowerArena[..])
    ensures Describes(u, mode, items, i, entry)
    ensures textOffset + |items[i]| + 1 == Offset(items, i + 1)
    ensures matchOffset + entry.length + 1 == Offset(NormalForms(u, mode, false, items), i + 1)
  {
    hide NormalForms, Folded, EncodeAll, Arena;
    var s := items[i];
    FillRoom(u, mode, items, i);
    ghost var text, match_, lower := textArena[..], matchArena[..], lowerArena[..];
    hide Filled, Overwrite, Describes, Offset, IsBasenameStart;
    Store(textArena, textOffset, s + [0]);
    var length := NormalizeInto(u, mode, s, matchArena, lowerArena, matchOffset);
    FillStep(u, mode, items, i, text, match_, lower, textArena[..], matchArena[..], lowerArena[..]);
    assert matchArena[matchOffset..matchOffset + length] == matchArena[..][matchOffset..matchOffset + length];
    var basename := BasenameStart(matchArena[matchOffset..matchOffset + length]);
    entry := Entry(textOffset, matchOffset, length, basename);
    EntryDescribes(u, mode, items, i, entry);
  }

  lemma EntryDescribes(u: Tables, mode: Mode, items: seq<seq<byte>>, i: nat, e: Entry)
    requires u.Valid() && i < |items|
    requires e.textOffset == Offset(items, i) && e.matchOffset == Offset(NormalForms(u, mode, false, items), i)
    requires e.length == |NormalForms(u, mode, false, items)[i]|
    requires IsBasenameStart(NormalForms(u, mode, false, items)[i], e.basename)
    ensures Describes(u, mode, items, i, e)
  {
  }

  /** The arenas have their final sizes and hold the first i items. */
  ghost predicate Filled(u: Tables, mode: Mode, items: seq<seq<byte>>, i: nat, text: seq<byte>, match_: seq<byte>,
                         lower: seq<byte>)
    requires u.Valid() && i <= |items|
  {
    var forms, lowers := NormalForms(u, mode, false, items), NormalForms(u, mode, true, items);
    && |text| == |Arena(items)| && |match_| == |lower| == |Arena(forms)|
    && Offset(lowers, i) == Offset(forms, i)
    && Arena(items[..i]) <= text && Arena(forms[..i]) <= match_ && Arena(lowers[..i]) <= lower
  }

  lemma FillStart(u: Tables, mode: Mode, items: seq<seq<byte>>, text: seq<byte>, match_: seq<byte>, lower: seq<byte>)
    requires u.Valid()
    requires |text| == |Arena(items)| && |match_| == |lower| == |Arena(NormalForms(u, mode, false, items))|
    ensures Offset(items, 0) == Offset(NormalForms(u, mode, false, items), 0) == 0
    ensures Filled(u, mode, items, 0, text, match_, lower)
  {
  }

  lemma FillRoom(u: Tables, mode: Mode, items: seq<seq<byte>>, i: nat)
    requires u.Valid() && i < |items|
    ensures
      var forms := NormalForms(u, mode, false, items);
      && Offset(items, i + 1) == Offset(items, i) + |items[i]| + 1 <= |Arena(items)|
      && |forms[i]| == |EncodeAll(Folded(u, items[i]))|
      && Offset(forms, i + 1) == Offset(forms, i) + |forms[i]| + 1 <= |Arena(forms)|
  {
    ArenaGrows(items, i);
    ArenaGrows(NormalForms(u, mode, false, items), i);
    FormLength(u, mode, false, items, i);
  }

  lemma FillStep(u: Tables, mode: Mode, items: seq<seq<byte>>, i: nat, text: seq<byte>, match_: seq<byte>,
                 lower: seq<byte>,
                 text': seq<byte>, match': seq<byte>, lower': seq<byte>)
    requires u.Valid() && i < |items| && Filled(u, mode, items, i, text, match_, lower)
    requires
      var forms, lowers := NormalForms(u, mode, false, items), NormalForms(u, mode, true, items);
      && Offset(items, i) + |items[i]| + 1 <= |text|
      && Offset(forms, i) + |forms[i]| + 1 <= |match_| && |lowers[i]| == |forms[i]|
      && text' == Overwrite(text, Offset(items, i), items[i] + [0])
      && match' == Overwrite(match_, Offset(forms, i), forms[i] + [0])
      && lower' == Overwrite(lower, Offset(forms, i), lowers[i] + [0])
    ensures Filled(u, mode, items, i + 1, text', match', lower')
    ensures
      var forms := NormalForms(u, mode, false, items);
      match'[Offset(forms, i)..Offset(forms, i) + |forms[i]|] == forms[i]
  {
    hide NormalForms, Arena, Overwrite, Offset;
    FillOne(items, i, text, text');
    FillOne(NormalForms(u, mode, false, items), i, match_, match');
    FillOne(NormalForms(u, mode, true, items), i, lower, lower');
  }

  /** One arena gets one more part. */
  lemma FillOne(parts: seq<seq<byte>>, i: nat, bytes: seq<byte>, bytes': seq<byte>)
    requires i < |parts| && Arena(parts[..i]) <= bytes
    requires Offset(parts, i) + |parts[i]| + 1 <= |bytes|
             && bytes' == Overwrite(bytes, Offset(parts, i), parts[i] + [0])
    ensures |bytes'| == |bytes| && Arena(parts[..i + 1]) <= bytes'
    ensures Offset(parts, i + 1) == Offset(parts, i) + |parts[i]| + 1
    ensures bytes'[Offset(parts, i)..Offset(parts, i) + |parts[i]|] == parts[i]
  {
    hide Arena;
    ArenaGrows(parts, i);
  }

  lemma FillEnd(u: Tables, mode: Mode, items: seq<seq<byte>>, text: seq<byte>, match_: seq<byte>, lower: seq<byte>)
    requires u.Valid() && Filled(u, mode, items, |items|, text, match_, lower)
    ensures text == Arena(items) && match_ == Arena(NormalForms(u, mode, false, items))
    ensures lower == Arena(NormalForms(u, mode, true, items))
  {
    WholeArena(items);
    WholeArena(NormalForms(u, mode, false, items));
    WholeArena(NormalForms(u, mode, true, items));
  }
}
