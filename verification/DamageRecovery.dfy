/**
 Recovering a log in which one byte is changed.
 */
module DamageRecovery {
  import opened Words
  import opened WalFormat
  import opened WalDamage
  import opened WalDetection
  import opened Recovery
  import ReuseRecovery
  import WalReading

  /**
   The byte is in a fragment, but not in its length, and leaves more than a lone header of zeros. With
   paranoid checks the recovery stops with the records in front of the damage. Without them it goes on
   with those that begin behind its block, as if there were no others in between.
   */
  lemma {:induction false} ByteChangedRecovered(step: ByteStep, records: seq<seq<uint8>>, bytes: seq<uint8>, s: nat,
                                                n: nat, i: nat, x: uint8, file: seq<uint8>, r: Recovered)
    returns (e: nat)
    requires TellsApart(step) && bytes == WriteLog(step, 0, records).bytes && HeaderAt(step, records, s, n)
    requires Covers(bytes, s, i) && i != s + 4 && i != s + 5
    requires i < |bytes| && x != bytes[i] && file == bytes[i := x]
    requires !(i == s + 6 && x == 0 && bytes[s + 4] == bytes[s + 5] == 0)
    ensures e == BlockEnd(bytes, s)
    ensures Recover(step, false, file, 0, r)
         == ApplyAll(false, r, records[..n] + records[Begun(step, 0, 0, records, e)..])
    ensures Recover(step, true, file, 0, r) == ApplyAll(true, r, records[..n]).(ok := false)
  {
    var f;
    e, f := ByteDamaged(step, records, bytes, s, n, i, x, file);
    RecoverAny(step, file, 0, r);
    ParanoidStops(step, records, file, bytes, s, e, n, f, r);
  }

  lemma {:induction false} ParanoidStops(step: ByteStep, records: seq<seq<uint8>>, file: seq<uint8>, bytes: seq<uint8>,
                                         s: nat, e: nat, n: nat, f: Fragment, r: Recovered)
    requires bytes == WriteLog(step, 0, records).bytes && HeaderAt(step, records, s, n)
    requires DamagedFrom(file, bytes, s, e) && f == NextFragment(step, true, file, s)
    requires f.kind == 6 && f.damage.Some?
    ensures Recover(step, true, file, 0, r) == ApplyAll(true, r, records[..n]).(ok := false)
  {
    var front, o, held := UpToDamage(step, true, records, file, bytes, s, e, n);
    ReuseRecovery.RecoverThenMore(step, true, file, 0, 0, records[..n], o, r);
    WalReading.BadRead(step, true, file, s, held, f);
  }
}
