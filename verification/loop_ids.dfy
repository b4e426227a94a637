/** Loop identities. Every `LOOP_START` frame is named `L{pc}_{depth}` from
    the position of the step and the depth of the loop stack at entry
    (core_engine.py:663); these names key the loop cache. */
module LoopIds {
  import opened Wrappers
  import opened Text

  function Id(pc: nat, depth: nat): (id: string)
    ensures |id| > 0 && id[0] == 'L'
  {
    "L" + NatToString(pc) + "_" + NatToString(depth)
  }

  /** Reads a loop name back into its position and depth. */
  function ParseId(s: string): Option<(nat, nat)>
  {
    if |s| == 0 || s[0] != 'L' || '_' !in s[1..] then None
    else
      var body := s[1..];
      var k := FirstIndex(body, '_');
      var pcText := body[..k];
      var depthText := body[k + 1..];
      if IsDigits(pcText) && IsDigits(depthText) then Some((DigitsValue(pcText), DigitsValue(depthText)))
      else None
  }

  /** Names read back to the position and depth they were made from. */
  lemma {:induction false} ParseIdOfId(pc: nat, depth: nat)
    ensures ParseId(Id(pc, depth)) == Some((pc, depth))
  {
    var p := NatToString(pc);
    var d := NatToString(depth);
    var s := Id(pc, depth);
    var body := s[1..];
    assert body == p + "_" + d;
    assert '_' !in p by {
      forall i | 0 <= i < |p| ensures p[i] != '_' { assert IsDigit(p[i]); }
    }
    assert body[|p|] == '_';
    var k := FirstIndex(body, '_');
    assert body[..k] == p;
    assert body[k + 1..] == d;
  }

  /** Distinct (position, depth) pairs give distinct loop names. */
  lemma IdInjective(pc1: nat, depth1: nat, pc2: nat, depth2: nat)
    requires (pc1, depth1) != (pc2, depth2)
    ensures Id(pc1, depth1) != Id(pc2, depth2)
  {
    ParseIdOfId(pc1, depth1);
    ParseIdOfId(pc2, depth2);
  }
}
