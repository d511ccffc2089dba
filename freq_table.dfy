/**
 * `make_freq_table`: tally the characters of the input in an ordered map and
 * flatten the map into a vector of (character, count) pairs in key order.
 */
module FreqTable {
  import opened HuffmanTree

  type FreqVec = seq<(Symbol, nat)>

  /**
   * cfvec lists every distinct character of inp exactly once, in strictly
   * ascending order, with count equal to its number of occurrences plus extra.
   */
  ghost predicate IsFreqTable(inp: seq<Symbol>, cfvec: FreqVec, extra: nat)
  {
    (forall j, k :: 0 <= j < k < |cfvec| ==> cfvec[j].0 < cfvec[k].0) &&
    (forall j :: 0 <= j < |cfvec| ==> cfvec[j].0 in inp && cfvec[j].1 == multiset(inp)[cfvec[j].0] + extra) &&
    (forall c :: c in inp ==> exists j :: 0 <= j < |cfvec| && cfvec[j].0 == c)
  }

  /**
   * Lines 175-178: iterate the map from begin() to end(), that is in
   * ascending key order, and push each (key, value) pair.
   */
  method Flatten(cfmap: map<Symbol, nat>) returns (cfvec: FreqVec)
    ensures forall j, k :: 0 <= j < k < |cfvec| ==> cfvec[j].0 < cfvec[k].0
    ensures forall j :: 0 <= j < |cfvec| ==> cfvec[j].0 in cfmap && cfvec[j].1 == cfmap[cfvec[j].0]
    ensures forall c :: c in cfmap ==> exists j :: 0 <= j < |cfvec| && cfvec[j].0 == c
  {
    cfvec := [];
    // The ordered map visits its keys in ascending order: key by key over the byte range.
    for key := 0 to 256
      invariant forall j, k :: 0 <= j < k < |cfvec| ==> cfvec[j].0 < cfvec[k].0
      invariant forall j :: 0 <= j < |cfvec| ==> cfvec[j].0 < key && cfvec[j].0 in cfmap && cfvec[j].1 == cfmap[cfvec[j].0]
      invariant forall c :: c in cfmap && c < key ==> exists j :: 0 <= j < |cfvec| && cfvec[j].0 == c
    {
      if key in cfmap {
        ghost var before := cfvec;
        cfvec := cfvec + [(key, cfmap[key])];
        forall c | c in cfmap && c < key + 1
          ensures exists j :: 0 <= j < |cfvec| && cfvec[j].0 == c
        {
          if c == key {
            assert cfvec[|before|].0 == c;
          } else {
            var j :| 0 <= j < |before| && before[j].0 == c;
            assert cfvec[j].0 == c;
          }
        }
      }
    }
  }

  /**
   * The source as written: the first occurrence is inserted with count 1 and
   * then incremented like every other, so each count is one too many.
   */
  method MakeFreqTable(inp: seq<Symbol>) returns (cfvec: FreqVec)
    ensures IsFreqTable(inp, cfvec, 1)
  {
    var cfmap: map<Symbol, nat> := map[];
    for i := 0 to |inp|
      invariant forall c :: c in cfmap <==> c in inp[..i]
      invariant forall c :: c in cfmap ==> cfmap[c] == multiset(inp[..i])[c] + 1
    {
      assert inp[..i + 1] == inp[..i] + [inp[i]];
      if inp[i] !in cfmap {
        cfmap := cfmap[inp[i] := 1];
      }
      cfmap := cfmap[inp[i] := cfmap[inp[i]] + 1];
    }
    assert inp[..|inp|] == inp;
    cfvec := Flatten(cfmap);
  }

  /** The evidently intended tally: a new character enters the map with count 0. */
  method MakeFreqTableExact(inp: seq<Symbol>) returns (cfvec: FreqVec)
    ensures IsFreqTable(inp, cfvec, 0)
  {
    var cfmap: map<Symbol, nat> := map[];
    for i := 0 to |inp|
      invariant forall c :: c in cfmap <==> c in inp[..i]
      invariant forall c :: c in cfmap ==> cfmap[c] == multiset(inp[..i])[c]
    {
      assert inp[..i + 1] == inp[..i] + [inp[i]];
      if inp[i] !in cfmap {
        cfmap := cfmap[inp[i] := 0];
      }
      cfmap := cfmap[inp[i] := cfmap[inp[i]] + 1];
    }
    assert inp[..|inp|] == inp;
    cfvec := Flatten(cfmap);
  }

  /** The as-written table of "aa" records 'a' (97) with count 3, not 2. */
  lemma {:induction false} FreqOffByOne(inp: seq<Symbol>, cfvec: FreqVec)
    requires inp == [97, 97] && IsFreqTable(inp, cfvec, 1)
    ensures multiset(inp)[97] == 2 && cfvec == [(97, 3)]
  {
    assert inp[0] == 97 && inp[0] in inp;
    assert multiset(inp)[97] == 2;
    var j :| 0 <= j < |cfvec| && cfvec[j].0 == 97;
    forall k | 0 <= k < |cfvec| ensures cfvec[k].0 == 97 {
      assert cfvec[k].0 in inp;
    }
    var k := if |cfvec| > 1 then 1 else 0;
    assert cfvec[0].0 == cfvec[k].0;
    assert |cfvec| == 1 && cfvec[0] == (97, 3);
  }

  /** The table is empty exactly when the input is. */
  lemma {:induction false} EmptyFreqTable(inp: seq<Symbol>, cfvec: FreqVec, extra: nat)
    requires IsFreqTable(inp, cfvec, extra)
    ensures cfvec == [] <==> inp == []
  {
    if inp != [] {
      assert inp[0] in inp;
    }
    if cfvec != [] {
      assert cfvec[0].0 in inp;
    }
  }
}
