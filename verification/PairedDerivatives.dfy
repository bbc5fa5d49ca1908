/** Separating Chinese code blocks that repeat their unsuffixed sibling's from the blocks still to be checked. */
module PairedDerivatives {
  import opened Options
  import opened Sorting

  /** A code block: its document, its fingerprint, and whatever else tells blocks apart. */
  datatype Block = Block(doc: string, fingerprint: string, id: nat)

  const SUFFIX := ".zh.md"

  predicate EndsWith(s: string, suffix: string) {
    |s| >= |suffix| && s[|s| - |suffix|..] == suffix
  }

  /** `unsuffixedSibling`. */
  function UnsuffixedSibling(doc: string): (sibling: Option<string>)
    ensures sibling.Some? ==> |sibling.value| < |doc|
  {
    if EndsWith(doc, SUFFIX) then Some(doc[..|doc| - |SUFFIX|] + ".md") else None
  }

  /** The blocks of one document, in order. */
  function OfDoc(blocks: seq<Block>, doc: string): (group: seq<Block>)
    ensures forall b :: b in group <==> b in blocks && b.doc == doc
  {
    if blocks == [] then []
    else
      var n := |blocks| - 1;
      OfDoc(blocks[..n], doc) + (if blocks[n].doc == doc then [blocks[n]] else [])
  }

  /** The same fingerprints in the same order. */
  predicate Repeats(candidates: seq<Block>, originals: seq<Block>) {
    |originals| == |candidates|
    && forall i :: 0 <= i < |candidates| ==> candidates[i].fingerprint == originals[i].fingerprint
  }

  /** A `.zh.md` document with blocks, whose sibling has blocks and is repeated. */
  predicate IsDerivative(blocks: seq<Block>, doc: string) {
    var sibling := UnsuffixedSibling(doc);
    && sibling.Some? && OfDoc(blocks, doc) != [] && OfDoc(blocks, sibling.value) != []
    && Repeats(OfDoc(blocks, doc), OfDoc(blocks, sibling.value))
  }

  /** The blocks whose documents are, or are not, derivatives, in order. */
  function Kept(all: seq<Block>, blocks: seq<Block>, derivative: bool): seq<Block> {
    if blocks == [] then []
    else
      var n := |blocks| - 1;
      Kept(all, blocks[..n], derivative)
      + (if IsDerivative(all, blocks[n].doc) == derivative then [blocks[n]] else [])
  }

  /** The first loop: the blocks of each document, and the documents in the order of their first block. */
  method GroupByDoc(blocks: seq<Block>) returns (byDoc: map<string, seq<Block>>, docs: seq<string>)
    ensures forall doc :: doc in byDoc <==> OfDoc(blocks, doc) != []
    ensures forall doc :: doc in byDoc ==> byDoc[doc] == OfDoc(blocks, doc)
    ensures forall doc :: doc in docs <==> doc in byDoc
  {
    byDoc, docs := map[], [];
    for i := 0 to |blocks|
      invariant forall doc :: doc in byDoc <==> OfDoc(blocks[..i], doc) != []
      invariant forall doc :: doc in byDoc ==> byDoc[doc] == OfDoc(blocks[..i], doc)
      invariant forall doc :: doc in docs <==> doc in byDoc
    {
      var block := blocks[i];
      assert blocks[..i + 1][..i] == blocks[..i];
      if block.doc in byDoc {
        byDoc := byDoc[block.doc := byDoc[block.doc] + [block]];
      } else {
        byDoc := byDoc[block.doc := [block]];
        docs := docs + [block.doc];
      }
    }
    assert blocks[..|blocks|] == blocks;
  }

  /** The second loop: the documents that repeat their sibling. */
  method FindDerivatives(ghost blocks: seq<Block>, byDoc: map<string, seq<Block>>, docs: seq<string>)
    returns (derivativeDocs: set<string>)
    requires forall doc :: doc in byDoc <==> OfDoc(blocks, doc) != []
    requires forall doc :: doc in byDoc ==> byDoc[doc] == OfDoc(blocks, doc)
    requires forall doc :: doc in docs <==> doc in byDoc
    ensures forall doc :: doc in derivativeDocs <==> doc in docs && IsDerivative(blocks, doc)
  {
    derivativeDocs := {};
    for i := 0 to |docs|
      invariant forall doc :: doc in derivativeDocs <==> doc in docs[..i] && IsDerivative(blocks, doc)
    {
      hide OfDoc;
      var doc := docs[i];
      assert docs[..i + 1] == docs[..i] + [doc];
      assert doc in docs;
      var candidates := byDoc[doc];
      var sibling := UnsuffixedSibling(doc);
      if sibling == None {
        continue;
      }
      if sibling.value !in byDoc || |byDoc[sibling.value]| != |candidates| {
        continue;
      }
      var originals := byDoc[sibling.value];
      if forall index :: 0 <= index < |candidates| ==> candidates[index].fingerprint == originals[index].fingerprint {
        derivativeDocs := derivativeDocs + {doc};
      }
    }
    assert docs[..|docs|] == docs;
  }

  method Partition(blocks: seq<Block>) returns (primary: seq<Block>, derivatives: seq<Block>)
    ensures primary == Kept(blocks, blocks, false) && derivatives == Kept(blocks, blocks, true)
  {
    hide IsDerivative;
    var byDoc, docs := GroupByDoc(blocks);
    var derivativeDocs := FindDerivatives(blocks, byDoc, docs);
    primary, derivatives := [], [];
    for i := 0 to |blocks|
      invariant primary == Kept(blocks, blocks[..i], false) && derivatives == Kept(blocks, blocks[..i], true)
    {
      var block := blocks[i];
      assert blocks[..i + 1][..i] == blocks[..i];
      assert block in OfDoc(blocks, block.doc);
      if block.doc in derivativeDocs {
        derivatives := derivatives + [block];
      } else {
        primary := primary + [block];
      }
    }
    assert blocks[..|blocks|] == blocks;
  }

  // ----- what the partition is -----

  /** One list, woven from two so that each keeps its order. */
  ghost predicate Woven(all: seq<Block>, a: seq<Block>, b: seq<Block>)
  {
    if all == [] then a == [] && b == []
    else
      var n := |all| - 1;
      || (a != [] && a[|a| - 1] == all[n] && Woven(all[..n], a[..|a| - 1], b))
      || (b != [] && b[|b| - 1] == all[n] && Woven(all[..n], a, b[..|b| - 1]))
  }

  lemma {:induction false} KeptWoven(all: seq<Block>, blocks: seq<Block>)
    ensures Woven(blocks, Kept(all, blocks, false), Kept(all, blocks, true))
  {
    if blocks != [] {
      var n := |blocks| - 1;
      KeptWoven(all, blocks[..n]);
      var primary, derivatives := Kept(all, blocks[..n], false), Kept(all, blocks[..n], true);
      assert (primary + [blocks[n]])[..|primary|] == primary
         && (derivatives + [blocks[n]])[..|derivatives|] == derivatives;
      assert primary + [] == primary && derivatives + [] == derivatives;
    }
  }

  lemma {:induction false} KeptMembers(all: seq<Block>, blocks: seq<Block>, derivative: bool)
    ensures forall b :: b in Kept(all, blocks, derivative) <==> b in blocks && IsDerivative(all, b.doc) == derivative
  {
    if blocks != [] {
      KeptMembers(all, blocks[..|blocks| - 1], derivative);
      assert blocks == blocks[..|blocks| - 1] + [blocks[|blocks| - 1]];
    }
  }

  /** `original` comes from `doc` by taking the suffix off some number of times. */
  ghost predicate IsAncestor(doc: string, original: string)
    decreases |doc|
  {
    doc == original || (UnsuffixedSibling(doc).Some? && IsAncestor(UnsuffixedSibling(doc).value, original))
  }

  /** Down the chain of siblings there is a document that is not itself a derivative and has the same fingerprints. */
  lemma {:induction false} ChainEnds(blocks: seq<Block>, doc: string) returns (original: string)
    requires OfDoc(blocks, doc) != []
    ensures IsAncestor(doc, original) && !IsDerivative(blocks, original) && OfDoc(blocks, original) != []
    ensures Repeats(OfDoc(blocks, doc), OfDoc(blocks, original))
    decreases |doc|
  {
    if IsDerivative(blocks, doc) {
      original := ChainEnds(blocks, UnsuffixedSibling(doc).value);
    } else {
      original := doc;
    }
  }

  /**
   The blocks are split into two lists that keep their order; a document goes to one list whole; and each
   derivative has a primary block with its fingerprint, at its index in a document down the chain of siblings.
   */
  lemma PartitionIsCovered(blocks: seq<Block>, derivative: Block, i: nat)
    requires derivative in Kept(blocks, blocks, true)
    requires i < |OfDoc(blocks, derivative.doc)| && OfDoc(blocks, derivative.doc)[i] == derivative
    ensures Woven(blocks, Kept(blocks, blocks, false), Kept(blocks, blocks, true))
    ensures forall b :: b in blocks && b.doc == derivative.doc ==>
              b in Kept(blocks, blocks, true) && b !in Kept(blocks, blocks, false)
    ensures exists original ::
              && IsAncestor(derivative.doc, original) && original != derivative.doc
              && i < |OfDoc(blocks, original)|
              && OfDoc(blocks, original)[i] in Kept(blocks, blocks, false)
              && OfDoc(blocks, original)[i].fingerprint == derivative.fingerprint
  {
    KeptWoven(blocks, blocks);
    KeptMembers(blocks, blocks, true);
    KeptMembers(blocks, blocks, false);
    var original := ChainEnds(blocks, derivative.doc);
    assert OfDoc(blocks, original)[i] in OfDoc(blocks, original);
  }

  // ----- in the names of the documents -----

  /** The sibling of `stem.zh.md` is `stem.md`. */
  lemma SiblingOf(stem: string)
    ensures UnsuffixedSibling(stem + ".zh.md") == Some(stem + ".md")
  {
    assert (stem + ".zh.md")[..|stem|] == stem;
  }

  /** Only names with that ending have a sibling. */
  lemma OnlySuffixed(doc: string)
    ensures UnsuffixedSibling(doc).Some? <==> exists stem :: doc == stem + ".zh.md"
  {
    if UnsuffixedSibling(doc).Some? {
      assert doc == doc[..|doc| - 6] + ".zh.md";
    }
    if exists stem :: doc == stem + ".zh.md" {
      var stem :| doc == stem + ".zh.md";
      SiblingOf(stem);
    }
  }

  /** The blocks of one document are all of them, in order. */
  lemma {:induction false} OfDocIs(blocks: seq<Block>, doc: string) returns (at: seq<nat>)
    ensures IsSelection(blocks, OfDoc(blocks, doc), at)
    ensures forall i: nat :: i < |blocks| ==> (i in at <==> blocks[i].doc == doc)
  {
    if blocks == [] {
      at := [];
    } else {
      var n := |blocks| - 1;
      at := OfDocIs(blocks[..n], doc);
      SelectionKeeps(blocks[..n], OfDoc(blocks[..n], doc), at, blocks[n]);
      assert blocks == blocks[..n] + [blocks[n]];
      if blocks[n].doc == doc {
        at := at + [n];
      }
    }
  }

  ghost function Fingerprints(group: seq<Block>): seq<string> {
    Mapped(group, (b: Block) => b.fingerprint)
  }

  /**
   The blocks of `stem.zh.md` are all derivatives if `stem.md` has the same fingerprints in the same order, and all
   primary otherwise.
   */
  lemma RepeatedIffDerivative(blocks: seq<Block>, stem: string, block: Block)
    requires block in blocks && block.doc == stem + ".zh.md"
    ensures
      if Fingerprints(OfDoc(blocks, stem + ".zh.md")) == Fingerprints(OfDoc(blocks, stem + ".md"))
      then block in Kept(blocks, blocks, true) && block !in Kept(blocks, blocks, false)
      else block in Kept(blocks, blocks, false) && block !in Kept(blocks, blocks, true)
  {
    SiblingOf(stem);
    KeptMembers(blocks, blocks, true);
    KeptMembers(blocks, blocks, false);
    var a, b := OfDoc(blocks, stem + ".zh.md"), OfDoc(blocks, stem + ".md");
    assert block in a;
    SamePrints(a, b);
  }

  lemma SamePrints(a: seq<Block>, b: seq<Block>)
    ensures Fingerprints(a) == Fingerprints(b) <==> Repeats(a, b)
  {
    assert forall i :: 0 <= i < |a| ==> Fingerprints(a)[i] == a[i].fingerprint;
    assert forall i :: 0 <= i < |b| ==> Fingerprints(b)[i] == b[i].fingerprint;
  }

  /** A block of any other document is primary. */
  lemma OthersArePrimary(blocks: seq<Block>, block: Block)
    requires block in blocks && !exists stem :: block.doc == stem + ".zh.md"
    ensures block in Kept(blocks, blocks, false) && block !in Kept(blocks, blocks, true)
  {
    OnlySuffixed(block.doc);
    KeptMembers(blocks, blocks, true);
    KeptMembers(blocks, blocks, false);
  }
}
