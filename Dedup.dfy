/**
 * The `seen` dictionary of `list_formats` (bongo_bot.py, lines 57-62): entries grouped by label,
 * the first entry of greatest height kept per label, labels in order of first appearance
 * (a Python dict keeps a key's position when its value is replaced).
 */
module Dedup {
  import opened Entries

  /** The position of the first entry labelled `l`, or `|es|` when there is none. */
  function Find(es: seq<Entry>, l: Label): (k: nat)
    ensures k <= |es|
    ensures k < |es| ==> es[k].lbl == l
    ensures forall i :: 0 <= i < k ==> es[i].lbl != l
  {
    if es == [] then 0
    else
      var k := Find(es[..|es| - 1], l);
      if k < |es| - 1 then k
      else if es[|es| - 1].lbl == l then |es| - 1
      else |es|
  }

  /** Whether some entry of `es` is labelled `l`. */
  predicate HasLabel(es: seq<Entry>, l: Label)
  {
    Find(es, l) < |es|
  }

  /**
   * Reference definition of the representative of label `l`: the index of the first entry
   * labelled `l` whose height no entry labelled `l` exceeds.
   */
  function Best(es: seq<Entry>, l: Label): (b: nat)
    ensures HasLabel(es, l) ==> b < |es| && es[b].lbl == l
  {
    if es == [] then 0
    else
      var p := es[..|es| - 1];
      var e := es[|es| - 1];
      var b := Best(p, l);
      if e.lbl == l && (!HasLabel(p, l) || e.height > p[b].height) then |es| - 1 else b
  }

  /** The representative has the greatest height of its label, and every earlier entry of that label is strictly lower. */
  lemma {:induction false} BestIsFirstHighest(es: seq<Entry>, l: Label)
    requires HasLabel(es, l)
    ensures var b := Best(es, l);
      forall k :: 0 <= k < |es| && es[k].lbl == l ==>
        es[k].height <= es[b].height && (k < b ==> es[k].height < es[b].height)
  {
    var p := es[..|es| - 1];
    var e := es[|es| - 1];
    var b := Best(es, l);
    if HasLabel(p, l) {
      BestIsFirstHighest(p, l);
      assert forall k :: 0 <= k < |p| ==> es[k] == p[k];
    } else {
      assert forall k :: 0 <= k < |p| ==> es[k] == p[k] && p[k].lbl != l;
    }
  }

  /** One iteration of the loop: insert `e` under its label, or replace a strictly lower entry. */
  function Step(vals: seq<Entry>, e: Entry): seq<Entry>
  {
    var k := Find(vals, e.lbl);
    if k == |vals| then vals + [e]
    else if e.height > vals[k].height then vals[k := e]
    else vals
  }

  /** `list(seen.values())` after the loop has run over `es`. */
  function Deduplicate(es: seq<Entry>): (vals: seq<Entry>)
    ensures |vals| <= |es|
  {
    if es == [] then [] else Step(Deduplicate(es[..|es| - 1]), es[|es| - 1])
  }

  /** `vals` is the outcome of grouping `es` by label and keeping each label's representative. */
  ghost predicate Summarizes(vals: seq<Entry>, es: seq<Entry>)
  {
    DistinctLabels(vals) && Covers(vals, es) && Represents(vals, es) && InFirstAppearanceOrder(vals, es)
  }

  /** Every label of `es` has an entry in `vals`. */
  ghost predicate Covers(vals: seq<Entry>, es: seq<Entry>)
  {
    forall j :: 0 <= j < |es| ==> HasLabel(vals, es[j].lbl)
  }

  /** Every entry of `vals` is the representative, in `es`, of its label. */
  ghost predicate Represents(vals: seq<Entry>, es: seq<Entry>)
  {
    forall i :: 0 <= i < |vals| ==> HasLabel(es, vals[i].lbl) && vals[i] == es[Best(es, vals[i].lbl)]
  }

  /** The labels of `vals` come in the order in which they first appear in `es`. */
  ghost predicate InFirstAppearanceOrder(vals: seq<Entry>, es: seq<Entry>)
  {
    forall i, i' :: 0 <= i < i' < |vals| ==> Find(es, vals[i].lbl) < Find(es, vals[i'].lbl)
  }

  lemma FindAppend(p: seq<Entry>, e: Entry, l: Label)
    ensures Find(p + [e], l) == if HasLabel(p, l) then Find(p, l) else if e.lbl == l then |p| else |p| + 1
  {
    assert (p + [e])[..|p|] == p;
  }

  lemma BestAppend(p: seq<Entry>, e: Entry, l: Label)
    ensures Best(p + [e], l) ==
      if e.lbl == l && (!HasLabel(p, l) || e.height > p[Best(p, l)].height) then |p| else Best(p, l)
  {
    assert (p + [e])[..|p|] == p;
  }

  lemma CoveredLabel(vals: seq<Entry>, es: seq<Entry>, l: Label)
    requires Covers(vals, es)
    ensures HasLabel(es, l) ==> HasLabel(vals, l)
  {
    if HasLabel(es, l) {
      assert es[Find(es, l)].lbl == l;
    }
  }

  /** An entry with a new label is appended. */
  lemma StepNew(vals: seq<Entry>, p: seq<Entry>, e: Entry)
    requires Summarizes(vals, p)
    requires !HasLabel(vals, e.lbl)
    ensures Summarizes(vals + [e], p + [e])
  {
    CoveredLabel(vals, p, e.lbl);
    StepNewDistinct(vals, e);
    StepNewCovers(vals, p, e);
    StepNewRepresents(vals, p, e);
    StepNewOrder(vals, p, e);
  }

  lemma StepNewDistinct(vals: seq<Entry>, e: Entry)
    requires DistinctLabels(vals) && !HasLabel(vals, e.lbl)
    ensures DistinctLabels(vals + [e])
  {
    var r := vals + [e];
    forall i, j | 0 <= i < j < |r| ensures r[i].lbl != r[j].lbl {
      if j < |vals| { assert r[i] == vals[i] && r[j] == vals[j]; }
      else { assert r[i] == vals[i] && r[j] == e; }
    }
  }

  lemma StepNewCovers(vals: seq<Entry>, p: seq<Entry>, e: Entry)
    requires Covers(vals, p)
    ensures Covers(vals + [e], p + [e])
  {
    var es, r := p + [e], vals + [e];
    forall j | 0 <= j < |es| ensures HasLabel(r, es[j].lbl) {
      FindAppend(vals, e, es[j].lbl);
      if j < |p| { assert es[j] == p[j]; }
    }
  }

  lemma StepNewRepresents(vals: seq<Entry>, p: seq<Entry>, e: Entry)
    requires Represents(vals, p) && !HasLabel(p, e.lbl)
    ensures Represents(vals + [e], p + [e])
  {
    var es, r := p + [e], vals + [e];
    forall i | 0 <= i < |r| ensures HasLabel(es, r[i].lbl) && r[i] == es[Best(es, r[i].lbl)] {
      FindAppend(p, e, r[i].lbl);
      BestAppend(p, e, r[i].lbl);
      if i < |vals| {
        assert r[i] == vals[i];
        assert es[Best(p, vals[i].lbl)] == p[Best(p, vals[i].lbl)];
      }
    }
  }

  lemma StepNewOrder(vals: seq<Entry>, p: seq<Entry>, e: Entry)
    requires InFirstAppearanceOrder(vals, p) && Represents(vals, p) && !HasLabel(p, e.lbl)
    ensures InFirstAppearanceOrder(vals + [e], p + [e])
  {
    var es, r := p + [e], vals + [e];
    forall i, i' | 0 <= i < i' < |r| ensures Find(es, r[i].lbl) < Find(es, r[i'].lbl) {
      FindAppend(p, e, r[i].lbl);
      FindAppend(p, e, r[i'].lbl);
      assert r[i] == vals[i];
      if i' < |vals| { assert r[i'] == vals[i']; }
    }
  }

  /** A higher entry with a known label replaces the kept one in place. */
  lemma StepReplace(vals: seq<Entry>, p: seq<Entry>, e: Entry)
    requires Summarizes(vals, p)
    requires HasLabel(vals, e.lbl) && e.height > vals[Find(vals, e.lbl)].height
    ensures Summarizes(vals[Find(vals, e.lbl) := e], p + [e])
  {
    var k := Find(vals, e.lbl);
    var r := vals[k := e];
    assert forall i :: 0 <= i < |r| ==> r[i].lbl == vals[i].lbl;
    assert DistinctLabels(r);
    StepReplaceCovers(vals, p, e);
    StepReplaceRepresents(vals, p, e);
    StepReplaceOrder(vals, p, e);
  }

  lemma StepReplaceCovers(vals: seq<Entry>, p: seq<Entry>, e: Entry)
    requires Covers(vals, p)
    requires HasLabel(vals, e.lbl)
    ensures Covers(vals[Find(vals, e.lbl) := e], p + [e])
  {
    var es, r := p + [e], vals[Find(vals, e.lbl) := e];
    forall j | 0 <= j < |es| ensures HasLabel(r, es[j].lbl) {
      FindSameLabels(vals, r, es[j].lbl);
      if j < |p| { assert es[j] == p[j]; }
    }
  }

  lemma StepReplaceRepresents(vals: seq<Entry>, p: seq<Entry>, e: Entry)
    requires DistinctLabels(vals) && Represents(vals, p)
    requires HasLabel(vals, e.lbl) && e.height > vals[Find(vals, e.lbl)].height
    ensures Represents(vals[Find(vals, e.lbl) := e], p + [e])
  {
    var k := Find(vals, e.lbl);
    var es, r := p + [e], vals[k := e];
    assert HasLabel(p, e.lbl) && vals[k] == p[Best(p, e.lbl)];
    forall i | 0 <= i < |r| ensures HasLabel(es, r[i].lbl) && r[i] == es[Best(es, r[i].lbl)] {
      FindAppend(p, e, r[i].lbl);
      BestAppend(p, e, r[i].lbl);
      if i != k {
        assert r[i] == vals[i] && vals[i].lbl != e.lbl;
        assert es[Best(p, vals[i].lbl)] == p[Best(p, vals[i].lbl)];
      }
    }
  }

  lemma StepReplaceOrder(vals: seq<Entry>, p: seq<Entry>, e: Entry)
    requires InFirstAppearanceOrder(vals, p) && Represents(vals, p)
    requires HasLabel(vals, e.lbl)
    ensures InFirstAppearanceOrder(vals[Find(vals, e.lbl) := e], p + [e])
  {
    var k := Find(vals, e.lbl);
    var es, r := p + [e], vals[k := e];
    forall i, i' | 0 <= i < i' < |r| ensures Find(es, r[i].lbl) < Find(es, r[i'].lbl) {
      FindAppend(p, e, r[i].lbl);
      FindAppend(p, e, r[i'].lbl);
      assert r[i].lbl == vals[i].lbl && r[i'].lbl == vals[i'].lbl;
    }
  }

  /** An entry no higher than the kept one of its label changes nothing. */
  lemma StepKeep(vals: seq<Entry>, p: seq<Entry>, e: Entry)
    requires Summarizes(vals, p)
    requires HasLabel(vals, e.lbl) && e.height <= vals[Find(vals, e.lbl)].height
    ensures Summarizes(vals, p + [e])
  {
    StepKeepCovers(vals, p, e);
    StepKeepRepresents(vals, p, e);
    StepKeepOrder(vals, p, e);
  }

  lemma StepKeepCovers(vals: seq<Entry>, p: seq<Entry>, e: Entry)
    requires Covers(vals, p) && HasLabel(vals, e.lbl)
    ensures Covers(vals, p + [e])
  {
    var es := p + [e];
    forall j | 0 <= j < |es| ensures HasLabel(vals, es[j].lbl) {
      if j < |p| { assert es[j] == p[j]; }
    }
  }

  lemma StepKeepRepresents(vals: seq<Entry>, p: seq<Entry>, e: Entry)
    requires DistinctLabels(vals) && Represents(vals, p)
    requires HasLabel(vals, e.lbl) && e.height <= vals[Find(vals, e.lbl)].height
    ensures Represents(vals, p + [e])
  {
    var k := Find(vals, e.lbl);
    var es := p + [e];
    assert HasLabel(p, e.lbl) && vals[k] == p[Best(p, e.lbl)];
    forall i | 0 <= i < |vals| ensures HasLabel(es, vals[i].lbl) && vals[i] == es[Best(es, vals[i].lbl)] {
      FindAppend(p, e, vals[i].lbl);
      BestAppend(p, e, vals[i].lbl);
      assert es[Best(p, vals[i].lbl)] == p[Best(p, vals[i].lbl)];
    }
  }

  lemma StepKeepOrder(vals: seq<Entry>, p: seq<Entry>, e: Entry)
    requires InFirstAppearanceOrder(vals, p) && Represents(vals, p)
    ensures InFirstAppearanceOrder(vals, p + [e])
  {
    var es := p + [e];
    forall i, i' | 0 <= i < i' < |vals| ensures Find(es, vals[i].lbl) < Find(es, vals[i'].lbl) {
      FindAppend(p, e, vals[i].lbl);
      FindAppend(p, e, vals[i'].lbl);
    }
  }

  lemma StepSummarizes(vals: seq<Entry>, p: seq<Entry>, e: Entry)
    requires Summarizes(vals, p)
    ensures Summarizes(Step(vals, e), p + [e])
  {
    var k := Find(vals, e.lbl);
    if k == |vals| {
      StepNew(vals, p, e);
    } else if e.height > vals[k].height {
      StepReplace(vals, p, e);
    } else {
      StepKeep(vals, p, e);
    }
  }

  /** Two lists with the same labels position the same way. */
  lemma {:induction false} FindSameLabels(a: seq<Entry>, b: seq<Entry>, l: Label)
    requires |a| == |b| && forall i :: 0 <= i < |a| ==> a[i].lbl == b[i].lbl
    ensures Find(a, l) == Find(b, l)
  {
    if a != [] {
      FindSameLabels(a[..|a| - 1], b[..|b| - 1], l);
    }
  }

  /**
   * The result of the loop has pairwise distinct labels, covers every label of the input,
   * holds each label's representative entry, and lists labels in order of first appearance.
   */
  lemma {:induction false} DeduplicateSummarizes(es: seq<Entry>)
    ensures Summarizes(Deduplicate(es), es)
  {
    if es != [] {
      var p, e := es[..|es| - 1], es[|es| - 1];
      assert p + [e] == es;
      var vals := Deduplicate(p);
      assert Deduplicate(es) == Step(vals, e);
      DeduplicateSummarizes(p);
      StepSummarizes(vals, p, e);
    }
  }

  /** The `i`-th deduplicated entry is the representative of its label among `es`. */
  lemma DeduplicateEntry(es: seq<Entry>, i: nat)
    requires i < |Deduplicate(es)|
    ensures HasLabel(es, Deduplicate(es)[i].lbl)
    ensures Deduplicate(es)[i] == es[Best(es, Deduplicate(es)[i].lbl)]
  {
    DeduplicateSummarizes(es);
  }

  /** The deduplicated entries have pairwise distinct labels. */
  lemma DeduplicateDistinct(es: seq<Entry>)
    ensures DistinctLabels(Deduplicate(es))
  {
    DeduplicateSummarizes(es);
  }

  /** The label of the `j`-th entry has an entry after deduplication. */
  lemma DeduplicateCovers(es: seq<Entry>, j: nat)
    requires j < |es|
    ensures HasLabel(Deduplicate(es), es[j].lbl)
  {
    DeduplicateSummarizes(es);
  }
}
