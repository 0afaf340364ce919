/*
 * intel_gem_add_ext (src/intel/common/intel_gem.h): append an extension record
 * to a chain of i915_user_extension records.
 *
 * A chain starts at a 64-bit cell (the `extensions` field of some kernel
 * argument, passed as `ptr`) and continues through the `next_extension` field
 * of each record; a zero link ends it. The links are record addresses stored
 * as integers. Memory is modelled as the head cell and a map from the
 * addresses of the caller's records to their headers.
 */
module Extension {

  import opened CTypes

  /** i915_user_extension: the header every extension record begins with. */
  datatype UserExtension = UserExtension(name: bv32, nextExtension: u64)

  /** A 64-bit link cell: the head cell, or the `next_extension` field of the record at an address. */
  datatype Link = HeadCell | NextOf(record: u64)

  type Records = map<u64, UserExtension>

  /**
   * `chain` lists, in order, the records reached from the link value `first`
   * until a zero link: each is a nonzero address of a record, and each
   * record's `next_extension` holds the next address, the last one zero.
   */
  ghost predicate IsChain(first: u64, records: Records, chain: seq<u64>)
  {
    && (if chain == [] then first == 0 else first == chain[0])
    && (forall i :: 0 <= i < |chain| ==> chain[i] != 0 && chain[i] in records)
    && (forall i {:trigger records[chain[i]]} :: 0 <= i < |chain| ==>
          records[chain[i]].nextExtension == LinkAfter(chain, i))
  }

  /** The link stored after position `i` of a chain: the next address, or zero after the last. */
  function LinkAfter(chain: seq<u64>, i: nat): u64
    requires i < |chain|
  {
    if i + 1 < |chain| then chain[i + 1] else 0
  }

  /** The suffix of a chain is the chain of the link it starts at. */
  lemma ChainSuffix(first: u64, records: Records, chain: seq<u64>, k: nat)
    requires IsChain(first, records, chain)
    requires 0 < k <= |chain|
    ensures IsChain(records[chain[k - 1]].nextExtension, records, chain[k..])
  {
    var rest := chain[k..];
    assert records[chain[k - 1]].nextExtension == if k < |chain| then chain[k] else 0;
    forall i | 0 <= i < |rest|
      ensures rest[i] != 0 && rest[i] in records
      ensures records[rest[i]].nextExtension == if i + 1 < |rest| then rest[i + 1] else 0
    {
      assert rest[i] == chain[k + i];
      assert records[chain[k + i]].nextExtension == if k + i + 1 < |chain| then chain[k + i + 1] else 0;
      if i + 1 < |rest| {
        assert rest[i + 1] == chain[k + i + 1];
      }
    }
  }

  /** Memory determines the chain: two chains from the same link are the same. */
  lemma {:induction false} ChainUnique(first: u64, records: Records, chain: seq<u64>, other: seq<u64>)
    requires IsChain(first, records, chain)
    requires IsChain(first, records, other)
    ensures chain == other
    decreases |chain|
  {
    if chain != [] {
      assert other != [];
      ChainSuffix(first, records, chain, 1);
      ChainSuffix(first, records, other, 1);
      ChainUnique(records[chain[0]].nextExtension, records, chain[1..], other[1..]);
      assert chain == [chain[0]] + chain[1..];
      assert other == [other[0]] + other[1..];
    }
  }

  /** A record occurs at one position of a chain only. */
  lemma ChainPosition(first: u64, records: Records, chain: seq<u64>, i: nat, j: nat)
    requires IsChain(first, records, chain)
    requires i < |chain| && j < |chain| && chain[i] == chain[j]
    ensures i == j
  {
    ChainSuffix(first, records, chain, i + 1);
    ChainSuffix(first, records, chain, j + 1);
    // both suffixes start at the same link, so they are equal
    ChainUnique(records[chain[i]].nextExtension, records, chain[i + 1..], chain[j + 1..]);
    assert |chain[i + 1..]| == |chain[j + 1..]|;
  }

  /** A chain that ends at a zero link visits no record twice. */
  lemma ChainIsAcyclic(first: u64, records: Records, chain: seq<u64>)
    requires IsChain(first, records, chain)
    ensures forall i, j :: 0 <= i < |chain| && 0 <= j < |chain| && chain[i] == chain[j] ==> i == j
  {
    forall i, j | 0 <= i < |chain| && 0 <= j < |chain| && chain[i] == chain[j]
      ensures i == j
    {
      ChainPosition(first, records, chain, i, j);
    }
  }

  /** The link cell holding a chain's terminating zero: the head cell when empty, else the last record's. */
  function TerminalLink(chain: seq<u64>): Link
  {
    if chain == [] then HeadCell else NextOf(chain[|chain| - 1])
  }

  /**
   * The records after intel_gem_add_ext: `ext` named `extName`, and the last
   * record of `chain`, if any, linked to `ext`.
   */
  function Appended(records: Records, chain: seq<u64>, ext: u64, extName: bv32): Records
    requires ext in records
    requires chain != [] ==> chain[|chain| - 1] in records
  {
    var named := records[ext := records[ext].(name := extName)];
    match TerminalLink(chain)
    case HeadCell => named
    case NextOf(last) => named[last := named[last].(nextExtension := ext)]
  }

  /**
   * Appending to a chain: the new chain is the old chain, then `ext`, then
   * whatever chain `ext` already led to, provided the two do not share a
   * record. `ext` carries the new name, and no other record changes except
   * the old last one, whose link now points at `ext`.
   */
  lemma {:induction false} AppendedChain(first: u64, records: Records, chain: seq<u64>,
                                         ext: u64, extName: bv32, extChain: seq<u64>)
    requires IsChain(first, records, chain)
    requires ext != 0 && ext in records && ext !in chain
    requires IsChain(records[ext].nextExtension, records, extChain)
    requires forall a :: a in extChain ==> a !in chain
    ensures IsChain(if chain == [] then ext else first, Appended(records, chain, ext, extName),
                    chain + [ext] + extChain)
    ensures Appended(records, chain, ext, extName).Keys == records.Keys
    ensures Appended(records, chain, ext, extName)[ext] == records[ext].(name := extName)
    ensures forall a :: a in records && a != ext && (chain == [] || a != chain[|chain| - 1]) ==>
              Appended(records, chain, ext, extName)[a] == records[a]
  {
    var after := Appended(records, chain, ext, extName);
    var whole := chain + [ext] + extChain;
    ChainIsAcyclic(first, records, chain);
    ExtNotInOwnChain(records, ext, extChain);
    var named := records[ext := records[ext].(name := extName)];
    if chain == [] {
      assert after == named;
      assert after[ext] == records[ext].(name := extName);
    } else {
      var last := chain[|chain| - 1];
      assert last != ext;
      assert after == named[last := named[last].(nextExtension := ext)];
      assert after[ext] == named[ext];
      assert after[ext] == records[ext].(name := extName);
      assert after[last] == records[last].(nextExtension := ext);
    }
    forall i | 0 <= i < |whole|
      ensures whole[i] != 0 && whole[i] in after
      ensures after[whole[i]].nextExtension == LinkAfter(whole, i)
    {
      if i < |chain| {
        assert whole[i] == chain[i];
        if i + 1 < |chain| {
          assert whole[i + 1] == chain[i + 1];
          assert chain[i] != chain[|chain| - 1];
          assert after[chain[i]] == records[chain[i]];
        } else {
          assert whole[i + 1] == ext;
          assert after[chain[i]].nextExtension == ext;
        }
      } else if i == |chain| {
        assert whole[i] == ext;
        assert after[ext].nextExtension == records[ext].nextExtension;
        if extChain != [] {
          assert whole[i + 1] == extChain[0];
        } else {
          assert i + 1 == |whole|;
        }
      } else {
        var j := i - |chain| - 1;
        assert whole[i] == extChain[j];
        assert extChain[j] != ext && extChain[j] !in chain;
        assert after[extChain[j]] == records[extChain[j]];
        assert records[extChain[j]].nextExtension == if j + 1 < |extChain| then extChain[j + 1] else 0;
        if i + 1 < |whole| {
          assert whole[i + 1] == extChain[j + 1];
        }
      }
    }
  }

  /** A record whose chain ends at a zero link is not on that chain. */
  lemma ExtNotInOwnChain(records: Records, ext: u64, extChain: seq<u64>)
    requires ext in records
    requires IsChain(records[ext].nextExtension, records, extChain)
    ensures ext !in extChain
  {
    if ext in extChain {
      var k :| 0 <= k < |extChain| && extChain[k] == ext;
      ChainSuffix(records[ext].nextExtension, records, extChain, k + 1);
      ChainUnique(records[ext].nextExtension, records, extChain, extChain[k + 1..]);
      assert false;
    }
  }

  /**
   * Linking R1, then R2, then R3 onto an empty head (each with a zero link)
   * gives the chain R1, R2, R3: each record carries the name given when it
   * was linked, and R3's link is zero.
   */
  lemma {:induction false} ThreeAppends(records: Records, r1: u64, r2: u64, r3: u64,
                                        n1: bv32, n2: bv32, n3: bv32)
    requires r1 in records && r2 in records && r3 in records
    requires r1 != 0 && r2 != 0 && r3 != 0
    requires r1 != r2 && r2 != r3 && r1 != r3
    requires records[r1].nextExtension == 0 && records[r2].nextExtension == 0
    requires records[r3].nextExtension == 0
    ensures var after := Appended(Appended(Appended(records, [], r1, n1), [r1], r2, n2), [r1, r2], r3, n3);
            && IsChain(r1, after, [r1, r2, r3])
            && after[r1].name == n1 && after[r2].name == n2 && after[r3].name == n3
            && after[r3].nextExtension == 0
  {
    var first := Appended(records, [], r1, n1);
    AppendedChain(0, records, [], r1, n1, []);
    assert [] + [r1] + [] == [r1];
    var second := Appended(first, [r1], r2, n2);
    AppendedChain(r1, first, [r1], r2, n2, []);
    assert [r1] + [r2] + [] == [r1, r2];
    AppendedChain(r1, second, [r1, r2], r3, n3, []);
    assert [r1, r2] + [r3] + [] == [r1, r2, r3];
  }

  /** Every record reached from `first` after appending `ext` a second time is on the old chain. */
  lemma {:induction false} RelinkStaysOnChain(first: u64, records: Records, chain: seq<u64>,
                                              ext: u64, extName: bv32, walk: seq<u64>, n: nat)
    requires IsChain(first, records, chain)
    requires ext in chain
    requires IsChain(first, Appended(records, chain, ext, extName), walk)
    requires n < |walk|
    ensures walk[n] in chain
    decreases n
  {
    var after := Appended(records, chain, ext, extName);
    var last := chain[|chain| - 1];
    if n == 0 {
      assert walk[0] == first == chain[0];
    } else {
      RelinkStaysOnChain(first, records, chain, ext, extName, walk, n - 1);
      var k :| 0 <= k < |chain| && chain[k] == walk[n - 1];
      assert after[walk[n - 1]].nextExtension == walk[n];
      if k + 1 < |chain| {
        ChainIsAcyclic(first, records, chain);
        assert chain[k] != last;
        assert after[chain[k]].nextExtension == records[chain[k]].nextExtension == chain[k + 1];
      } else {
        assert after[last].nextExtension == ext;
      }
    }
  }

  /** After appending a record already on the chain, every record of the chain has a nonzero link. */
  lemma RelinkedLinksNonZero(first: u64, records: Records, chain: seq<u64>, ext: u64, extName: bv32)
    requires IsChain(first, records, chain)
    requires ext in chain
    ensures forall a :: a in chain ==> Appended(records, chain, ext, extName)[a].nextExtension != 0
  {
    var after := Appended(records, chain, ext, extName);
    var last := chain[|chain| - 1];
    ChainIsAcyclic(first, records, chain);
    forall a | a in chain
      ensures after[a].nextExtension != 0
    {
      var k :| 0 <= k < |chain| && chain[k] == a;
      if k + 1 < |chain| {
        assert chain[k] != last;
        assert records[chain[k]].nextExtension == LinkAfter(chain, k);
      }
    }
  }

  /**
   * Linking a record that is already on the chain leaves no zero-terminated
   * chain from the head: the last record now points back into the chain.
   */
  lemma RelinkMakesCycle(first: u64, records: Records, chain: seq<u64>, ext: u64, extName: bv32,
                         walk: seq<u64>)
    requires IsChain(first, records, chain)
    requires ext in chain
    ensures !IsChain(first, Appended(records, chain, ext, extName), walk)
  {
    RelinkedLinksNonZero(first, records, chain, ext, extName);
    if IsChain(first, Appended(records, chain, ext, extName), walk) {
      assert walk != [] by { assert first == chain[0] != 0; }
      RelinkStaysOnChain(first, records, chain, ext, extName, walk, |walk| - 1);
      assert false;
    }
  }

  /** The caller's memory: the head cell `*ptr` and the extension records. */
  class Memory {
    var head: u64
    var records: Records

    /** The value of a link cell. */
    function Load(link: Link): u64
      reads this
      requires link.NextOf? ==> link.record in records
    {
      match link
      case HeadCell => head
      case NextOf(a) => records[a].nextExtension
    }

    /**
     * intel_gem_add_ext: walk from the head cell to the zero link, name
     * `ext`, and make that link point at `ext`. `chain` is the chain from the
     * head cell and `extChain` the one `ext` already leads to; they must not
     * share a record, which also rules out linking the same record twice.
     */
    method AddExt(extName: bv32, ext: u64, ghost chain: seq<u64>, ghost extChain: seq<u64>)
      requires IsChain(head, records, chain)
      requires ext != 0 && ext in records && ext !in chain
      requires IsChain(records[ext].nextExtension, records, extChain)
      requires forall a :: a in extChain ==> a !in chain
      modifies this
      ensures head == if chain == [] then ext else old(head)
      ensures records == Appended(old(records), chain, ext, extName)
      ensures IsChain(head, records, chain + [ext] + extChain)
    {
      var iter := HeadCell;
      ghost var i := 0;
      while Load(iter) != 0
        invariant 0 <= i <= |chain|
        invariant iter == if i == 0 then HeadCell else NextOf(chain[i - 1])
        invariant Load(iter) == if i < |chain| then chain[i] else 0
        invariant unchanged(this)
        decreases |chain| - i
      {
        assert records[chain[i]].nextExtension == LinkAfter(chain, i);
        iter := NextOf(Load(iter));
        i := i + 1;
      }
      assert iter == TerminalLink(chain);

      records := records[ext := records[ext].(name := extName)];
      match iter {
        case HeadCell =>
          head := ext;
        case NextOf(last) =>
          records := records[last := records[last].(nextExtension := ext)];
      }
      AppendedChain(old(head), old(records), chain, ext, extName, extChain);
    }
  }
}
