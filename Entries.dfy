/**
 * The format records the extractor returns and the `(label, format_id, filesize, height)`
 * tuples `list_formats` derives from them (bongo_bot.py, lines 45-55).
 */
module Entries {
  import opened Wrappers
  import Decimal

  /**
   * One element of the extractor's `formats` list. Every field is optional, as `f.get(...)`
   * returns None for a missing key.
   */
  datatype FormatRecord = FormatRecord(
    vcodec: Option<string>,
    height: Option<nat>,
    formatId: Option<string>,
    filesize: Option<nat>,
    filesizeApprox: Option<nat>,
    formatNote: Option<string>,
    ext: Option<string>)

  /** The extractor's info dict; `formats` is None when the key is absent. */
  datatype Info = Info(formats: Option<seq<FormatRecord>>)

  /** A display label; None when a record has no height, no usable note and no extension. */
  type Label = Option<string>

  /** The tuple `(label, fid, sz, h)` that `list_formats` builds and returns. */
  datatype Entry = Entry(lbl: Label, formatId: Option<string>, size: Option<nat>, height: nat)

  /** An audio-only stream: its `vcodec` is exactly the string "none". */
  predicate IsAudioOnly(f: FormatRecord)
  {
    f.vcodec == Some("none")
  }

  /** `f.get("height") or 0`. */
  function HeightOf(f: FormatRecord): (h: nat)
    ensures h == 0 <==> f.height.None? || f.height == Some(0)
    ensures h != 0 ==> f.height == Some(h)
  {
    f.height.GetOr(0)
  }

  /** `f.get("filesize") or f.get("filesize_approx")`: a zero or missing filesize falls back. */
  function SizeOf(f: FormatRecord): (r: Option<nat>)
    ensures f.filesize.Some? && f.filesize.value > 0 ==> r == f.filesize
    ensures !(f.filesize.Some? && f.filesize.value > 0) ==> r == f.filesizeApprox
  {
    match f.filesize
    case Some(n) => if n != 0 then f.filesize else f.filesizeApprox
    case None => f.filesizeApprox
  }

  /** The text of a height label, `f"{h}p"`. */
  function HeightLabel(h: nat): string
  {
    Decimal.Show(h) + "p"
  }

  /** `f"{height}p" if height else (f.get("format_note") or f.get("ext"))`. */
  function LabelOf(f: FormatRecord): Label
  {
    if HeightOf(f) != 0 then Some(HeightLabel(HeightOf(f)))
    else if f.formatNote.Some? && f.formatNote.value != "" then f.formatNote
    else f.ext
  }

  function ToEntry(f: FormatRecord): Entry
  {
    Entry(LabelOf(f), f.formatId, SizeOf(f), HeightOf(f))
  }

  /**
   * A record with a positive height is labelled with that height's decimal text and "p",
   * so the height can be read back from the label.
   */
  lemma LabelShowsHeight(f: FormatRecord)
    requires HeightOf(f) > 0
    ensures LabelOf(f).Some?
    ensures var l := LabelOf(f).value;
      |l| >= 2 && l[|l| - 1] == 'p' && Decimal.AllDigits(l[..|l| - 1]) && l[0] != '0'
      && Decimal.Parse(l[..|l| - 1]) == HeightOf(f)
  {
    var l := LabelOf(f).value;
    assert l[..|l| - 1] == Decimal.Show(HeightOf(f));
    Decimal.ParseShow(HeightOf(f));
  }

  /** Two records with positive heights share a label exactly when they share a height. */
  lemma HeightLabelsDistinguishHeights(f: FormatRecord, g: FormatRecord)
    requires HeightOf(f) > 0 && HeightOf(g) > 0
    ensures LabelOf(f) == LabelOf(g) <==> HeightOf(f) == HeightOf(g)
  {
    if LabelOf(f) == LabelOf(g) {
      LabelShowsHeight(f);
      LabelShowsHeight(g);
    }
  }

  /** A record without a height is labelled by its non-empty note, else by its extension. */
  lemma LabelWithoutHeight(f: FormatRecord)
    requires HeightOf(f) == 0
    ensures f.formatNote.Some? && f.formatNote.value != "" ==> LabelOf(f) == f.formatNote
    ensures (f.formatNote.None? || f.formatNote == Some("")) ==> LabelOf(f) == f.ext
  {
  }

  /** The first loop of `list_formats`: one entry per record that is not audio-only, in order. */
  function Extract(fs: seq<FormatRecord>): (es: seq<Entry>)
    ensures |es| <= |fs|
  {
    if fs == [] then []
    else
      var last := fs[|fs| - 1];
      Extract(fs[..|fs| - 1]) + (if IsAudioOnly(last) then [] else [ToEntry(last)])
  }

  /** One record yields its entry, or nothing when it is audio-only. */
  lemma ExtractOne(f: FormatRecord)
    ensures Extract([f]) == if IsAudioOnly(f) then [] else [ToEntry(f)]
  {
    assert [f][..0] == [];
  }

  /**
   * The filter works record by record, in order: extracting two runs of records one after
   * the other gives the entries of the first run followed by those of the second.
   */
  lemma {:induction false} ExtractConcat(a: seq<FormatRecord>, b: seq<FormatRecord>)
    ensures Extract(a + b) == Extract(a) + Extract(b)
  {
    if b == [] {
      assert a + b == a;
    } else {
      var p := b[..|b| - 1];
      ExtractConcat(a, p);
      assert (a + b)[..|a + b| - 1] == a + p;
      assert (a + b)[|a + b| - 1] == b[|b| - 1];
    }
  }

  /** Every extracted entry comes from a record that is not audio-only. */
  lemma {:induction false} ExtractSound(fs: seq<FormatRecord>)
    ensures forall i :: 0 <= i < |Extract(fs)| ==>
      exists j :: 0 <= j < |fs| && !IsAudioOnly(fs[j]) && Extract(fs)[i] == ToEntry(fs[j])
  {
    if fs == [] {
      assert Extract(fs) == [];
    } else {
      var p := fs[..|fs| - 1];
      var last := fs[|fs| - 1];
      var tail := if IsAudioOnly(last) then [] else [ToEntry(last)];
      assert Extract(fs) == Extract(p) + tail;
      ExtractSound(p);
      forall i | 0 <= i < |Extract(fs)|
        ensures exists j :: 0 <= j < |fs| && !IsAudioOnly(fs[j]) && Extract(fs)[i] == ToEntry(fs[j])
      {
        if i < |Extract(p)| {
          assert exists j :: 0 <= j < |p| && !IsAudioOnly(p[j]) && Extract(p)[i] == ToEntry(p[j]);
          var j :| 0 <= j < |p| && !IsAudioOnly(p[j]) && Extract(p)[i] == ToEntry(p[j]);
          assert fs[j] == p[j] && Extract(fs)[i] == Extract(p)[i];
        } else {
          var j := |fs| - 1;
          assert !IsAudioOnly(fs[j]) && Extract(fs)[i] == ToEntry(fs[j]);
        }
      }
    }
  }

  /** Every record that is not audio-only yields an extracted entry. */
  lemma {:induction false} ExtractComplete(fs: seq<FormatRecord>)
    ensures forall j :: 0 <= j < |fs| && !IsAudioOnly(fs[j]) ==> ToEntry(fs[j]) in Extract(fs)
  {
    if fs != [] {
      var p := fs[..|fs| - 1];
      ExtractComplete(p);
      forall j | 0 <= j < |fs| && !IsAudioOnly(fs[j])
        ensures ToEntry(fs[j]) in Extract(fs)
      {
        if j < |p| {
          assert fs[j] == p[j];
        }
      }
    }
  }

  /** The labels of `es` are pairwise distinct. */
  ghost predicate DistinctLabels(es: seq<Entry>)
  {
    forall i, j :: 0 <= i < j < |es| ==> es[i].lbl != es[j].lbl
  }

  /** The entries of `es` are in order of non-increasing height. */
  ghost predicate NonIncreasing(es: seq<Entry>)
  {
    forall i, j :: 0 <= i < j < |es| ==> es[i].height >= es[j].height
  }
}
