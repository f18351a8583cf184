/**
 * `list_formats` (bongo_bot.py, lines 32-65): the extractor's format records filtered,
 * labelled, deduplicated by label and sorted by height, highest first.
 */
module Discovery {
  import opened Wrappers
  import opened Entries
  import opened Dedup
  import opened HeightSort

  /** The formats list of an info dict: `info.get("formats", [])`. */
  function FormatsOf(info: Info): seq<FormatRecord>
  {
    info.formats.GetOr([])
  }

  /**
   * What `list_formats` returns: `[]` when extraction failed (`extracted` is None), otherwise
   * the records that are not audio-only, one per label, sorted by height.
   */
  function ListFormatsSpec(extracted: Option<Info>): (formats: seq<Entry>)
    ensures extracted.Some? ==> |formats| <= |FormatsOf(extracted.value)|
  {
    match extracted
    case None => []
    case Some(info) => SortDesc(Deduplicate(Extract(FormatsOf(info))))
  }

  /** The Python dict `seen`: `keys` in insertion order and the map, each value filed under its own label. */
  ghost predicate DictInv(keys: seq<Label>, seen: map<Label, Entry>)
  {
    && (forall i :: 0 <= i < |keys| ==> keys[i] in seen)
    && (forall l :: l in seen ==> l in keys)
    && (forall i, j :: 0 <= i < j < |keys| ==> keys[i] != keys[j])
    && (forall l :: l in seen ==> seen[l].lbl == l)
  }

  /** `list(seen.values())`. */
  function Values(keys: seq<Label>, seen: map<Label, Entry>): seq<Entry>
    requires forall i :: 0 <= i < |keys| ==> keys[i] in seen
  {
    seq(|keys|, i requires 0 <= i < |keys| => seen[keys[i]])
  }

  lemma ValuesFind(keys: seq<Label>, seen: map<Label, Entry>, l: Label)
    requires DictInv(keys, seen)
    ensures var k := Find(Values(keys, seen), l);
      (k < |keys| <==> l in seen) && (k < |keys| ==> keys[k] == l)
  {
    var vs := Values(keys, seen);
    var k := Find(vs, l);
    if l in seen {
      var m :| 0 <= m < |keys| && keys[m] == l;
      assert vs[m].lbl == l;
    }
  }

  /** Inserting a new key appends its value. */
  lemma DictAdd(keys: seq<Label>, seen: map<Label, Entry>, e: Entry)
    requires DictInv(keys, seen) && e.lbl !in seen
    ensures DictInv(keys + [e.lbl], seen[e.lbl := e])
    ensures Values(keys + [e.lbl], seen[e.lbl := e]) == Step(Values(keys, seen), e)
  {
    ValuesFind(keys, seen, e.lbl);
    assert forall i :: 0 <= i < |keys| ==> keys[i] != e.lbl;
  }

  /** Replacing the value of a present key keeps its position. */
  lemma DictReplace(keys: seq<Label>, seen: map<Label, Entry>, e: Entry)
    requires DictInv(keys, seen) && e.lbl in seen && e.height > seen[e.lbl].height
    ensures DictInv(keys, seen[e.lbl := e])
    ensures Values(keys, seen[e.lbl := e]) == Step(Values(keys, seen), e)
  {
    ValuesFind(keys, seen, e.lbl);
    var k := Find(Values(keys, seen), e.lbl);
    assert forall i :: 0 <= i < |keys| && i != k ==> keys[i] != e.lbl;
  }

  /** Leaving the dict alone when the entry is not strictly higher. */
  lemma DictKeep(keys: seq<Label>, seen: map<Label, Entry>, e: Entry)
    requires DictInv(keys, seen) && e.lbl in seen && e.height <= seen[e.lbl].height
    ensures Values(keys, seen) == Step(Values(keys, seen), e)
  {
    ValuesFind(keys, seen, e.lbl);
  }

  /** `list_formats(url)`, given what the extractor returned for `url` (None: it raised). */
  method ListFormats(extracted: Option<Info>) returns (uniq: seq<Entry>)
    ensures uniq == ListFormatsSpec(extracted)
  {
    if extracted.None? {
      return [];
    }
    var fs := FormatsOf(extracted.value);

    var formats: seq<Entry> := [];
    for i := 0 to |fs|
      invariant formats == Extract(fs[..i])
    {
      var f := fs[i];
      assert fs[..i + 1][..i] == fs[..i];
      if !IsAudioOnly(f) {
        var height := HeightOf(f);
        var fmtId := f.formatId;
        var filesize := SizeOf(f);
        var lbl := LabelOf(f);
        formats := formats + [Entry(lbl, fmtId, filesize, height)];
      }
    }
    assert fs[..|fs|] == fs;

    var seen: map<Label, Entry> := map[];
    var keys: seq<Label> := [];
    for i := 0 to |formats|
      invariant DictInv(keys, seen)
      invariant Values(keys, seen) == Deduplicate(formats[..i])
    {
      var e := formats[i];
      assert formats[..i + 1][..i] == formats[..i];
      if e.lbl !in seen {
        DictAdd(keys, seen, e);
        keys := keys + [e.lbl];
        seen := seen[e.lbl := e];
      } else if e.height > seen[e.lbl].height {
        DictReplace(keys, seen, e);
        seen := seen[e.lbl := e];
      } else {
        DictKeep(keys, seen, e);
      }
    }
    assert formats[..|formats|] == formats;
    uniq := Values(keys, seen);

    var a := new Entry[|uniq|](i requires 0 <= i < |uniq| => uniq[i]);
    assert a[..] == uniq;
    SortByHeightDesc(a);
    uniq := a[..];
  }

  /** A failed extraction yields no formats. */
  lemma ListFormatsFailed()
    ensures ListFormatsSpec(None) == []
  {
  }

  /**
   * Nothing is invented: every returned entry is the labelled form of a record that is not
   * audio-only, so its `format_id` is that record's.
   */
  lemma ListFormatsSound(info: Info)
    ensures var fs, r := FormatsOf(info), ListFormatsSpec(Some(info));
      forall i :: 0 <= i < |r| ==>
        exists j :: 0 <= j < |fs| && !IsAudioOnly(fs[j]) && r[i] == ToEntry(fs[j])
  {
    var fs := FormatsOf(info);
    var e := Extract(fs);
    var d := Deduplicate(e);
    var r := SortDesc(d);
    assert ListFormatsSpec(Some(info)) == r;
    SortDescMembers(d);
    ExtractSound(fs);
    forall i | 0 <= i < |r|
      ensures exists j :: 0 <= j < |fs| && !IsAudioOnly(fs[j]) && r[i] == ToEntry(fs[j])
    {
      assert r[i] in d;
      var q :| 0 <= q < |d| && d[q] == r[i];
      DeduplicateEntry(e, q);
      var b := Best(e, d[q].lbl);
      assert e[b] == r[i];
    }
  }

  /**
   * Labels are pairwise distinct, and the label of every record that is not audio-only
   * appears among them (so exactly once).
   */
  lemma ListFormatsLabels(info: Info)
    ensures var fs, r := FormatsOf(info), ListFormatsSpec(Some(info));
      DistinctLabels(r) &&
      forall j :: 0 <= j < |fs| && !IsAudioOnly(fs[j]) ==> HasLabel(r, LabelOf(fs[j]))
  {
    var fs := FormatsOf(info);
    var e := Extract(fs);
    var d := Deduplicate(e);
    var r := SortDesc(d);
    assert ListFormatsSpec(Some(info)) == r;
    DeduplicateDistinct(e);
    SortDescDistinct(d);
    SortDescMembers(d);
    ExtractComplete(fs);
    forall j | 0 <= j < |fs| && !IsAudioOnly(fs[j]) ensures HasLabel(r, LabelOf(fs[j])) {
      var x := ToEntry(fs[j]);
      var m :| 0 <= m < |e| && e[m] == x;
      DeduplicateCovers(e, m);
      var q := Find(d, e[m].lbl);
      assert d[q] in r;
      var i :| 0 <= i < |r| && r[i] == d[q];
      assert Find(r, x.lbl) <= i;
    }
  }

  /**
   * Each returned entry is, among the extracted entries of its label (`formats` in the source),
   * one of greatest height, and every earlier one of that label is strictly lower: ties keep the first.
   */
  lemma ListFormatsKeepsHighest(info: Info)
    ensures var e, r := Extract(FormatsOf(info)), ListFormatsSpec(Some(info));
      forall i :: 0 <= i < |r| ==>
        var b := Best(e, r[i].lbl);
        b < |e| && r[i] == e[b] &&
        forall k :: 0 <= k < |e| && e[k].lbl == r[i].lbl ==>
          e[k].height <= r[i].height && (k < b ==> e[k].height < r[i].height)
  {
    var e := Extract(FormatsOf(info));
    var d := Deduplicate(e);
    var r := SortDesc(d);
    assert ListFormatsSpec(Some(info)) == r;
    SortDescMembers(d);
    forall i | 0 <= i < |r|
      ensures var b := Best(e, r[i].lbl);
        b < |e| && r[i] == e[b] &&
        forall k :: 0 <= k < |e| && e[k].lbl == r[i].lbl ==>
          e[k].height <= r[i].height && (k < b ==> e[k].height < r[i].height)
    {
      assert r[i] in d;
      var q :| 0 <= q < |d| && d[q] == r[i];
      DeduplicateEntry(e, q);
      BestIsFirstHighest(e, r[i].lbl);
    }
  }

  /**
   * The result is sorted by height, highest first, so entries of height 0 come last; entries of
   * equal height keep the order in which their labels first appear among the extracted entries.
   */
  lemma ListFormatsOrder(info: Info)
    ensures var e, r := Extract(FormatsOf(info)), ListFormatsSpec(Some(info));
      && NonIncreasing(r)
      && (forall i, i' :: 0 <= i < i' < |r| && r[i].height == 0 ==> r[i'].height == 0)
      && (forall i, i' :: 0 <= i < i' < |r| && r[i].height == r[i'].height ==>
            Find(e, r[i].lbl) < Find(e, r[i'].lbl))
  {
    var e := Extract(FormatsOf(info));
    var d := Deduplicate(e);
    DeduplicateSummarizes(e);
    assert ListFormatsSpec(Some(info)) == SortDesc(d);
    SortDescNonIncreasing(d);
    SortDescKeepsOrder(d, e);
  }
}
