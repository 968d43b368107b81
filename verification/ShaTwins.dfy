/** The simulator's SHA-1 and the client's one-block SHA compute the same compression. */
module ShaTwins {
  import opened Sha1Spec
  import Sha1
  import ShaEE

  /** For every block, ComputeSHAEE plus the initial constants is the state sha1_hashBlock reaches from sha1_init. */
  method CompressionsAgree(s: Sha1.Sha1Info, mt: seq<bv8>) returns (v: Vars)
    requires s.Shape() && |mt| == 64
    modifies s, s.buffer, s.state
    ensures v == s.StateVars() == Compress(INITIAL, WordsOf(mt))
  {
    hide AddVars, HashBlocks, ShaEE.LowVars, Rounds, WordsOf;
    ShaEE.OneBlock(mt);
    s.Init();
    s.Write(mt);
    assert s.fed == mt && Sha1.Whole(mt) == mt;
    var a, b, c, d, e := ShaEE.ComputeSHAEE(mt);
    v := AddVars(INITIAL, ShaEE.LowVars(a, b, c, d, e));
  }
}
