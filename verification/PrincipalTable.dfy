/** The attestation manager's own state, updated in place; its methods are the atomic steps of the handlers. */
module PrincipalTable {
  import opened Wrappers
  import opened Words
  import opened Principals
  import opened PrincipalSafety

  class AttestationManager {
    var gn: Uint64
    var principals: Table

    constructor ()
      ensures gn == START.gn && principals == START.table
    {
      gn := 0;
      principals := map[];
    }

    /** Hands out the next generation; the 64-bit counter wraps around. */
    method TakeGn() returns (g: Uint64)
      modifies this`gn
      ensures g == old(gn) && gn == (old(gn) + 1) % 0x1_0000_0000_0000_0000
    {
      g := gn;
      gn := (gn + 1) % TWO_64;
    }

    /** Inserts under the lock, at a place of the hash table's choosing. */
    method AddPrincipal(r: Record) returns (ghost at: nat)
      modifies this`principals
      ensures at <= |Bucket(old(principals), r.id)| && principals == Add(old(principals), r, at)
    {
      var b := Bucket(principals, r.id);
      var position :| 0 <= position <= |b|;
      at := position;
      principals := principals[r.id := b[..position] + [r] + b[position..]];
    }

    /** The loop over an equal range, shared by deletion and lookup. */
    static method ScanLatest(matched: seq<Record>) returns (latest: Option<Record>)
      ensures latest == Latest(matched)
    {
      var maxgn := 0;
      latest := None;
      var i := 0;
      while i < |matched|
        invariant 0 <= i <= |matched|
        invariant latest == Latest(matched[..i])
        invariant maxgn == if latest.Some? then latest.value.gn else 0
      {
        assert matched[..i + 1][..i] == matched[..i];
        if maxgn <= matched[i].gn {
          maxgn := matched[i].gn;
          latest := Some(matched[i]);
        }
        i := i + 1;
      }
      assert matched[..i] == matched;
    }

    /** The locked part of a deletion. */
    method EraseLatest(id: Uint64, pid: nat, uid: nat) returns (outcome: Erasure)
      modifies this`principals
      ensures (principals, outcome) == Erase(old(principals), id, pid, uid)
    {
      var latest := ScanLatest(Bucket(principals, id));
      if latest.Some? {
        if latest.value.speaker != pid && uid != 0 {
          return Refused;
        }
      }
      principals := principals - {id};
      outcome := if latest.Some? then Erased(latest.value) else NotFound;
    }

    /**
    The whole creation handler when nothing interleaves. A request without a well-formed principal
    (`request` is `None`) costs nothing; a failed remote creation costs a generation number only.
     */
    method CreatePrincipal(request: Option<Uint64>, pid: nat, remoteOk: bool) returns (ok: bool, posted: seq<Record>)
      modifies this
      ensures ok <==> request.Some? && remoteOk
      ensures request.None? ==> gn == old(gn) && principals == old(principals) && posted == []
      ensures request.Some? ==>
                var r := Record(request.value, old(gn), pid);
                && gn == (old(gn) + 1) % TWO_64
                && posted == [r]
                && if !remoteOk then principals == old(principals)
                   else exists at :: 0 <= at <= |Bucket(old(principals), r.id)|
                                     && principals == Add(old(principals), r, at)
    {
      if request.None? {
        return false, [];
      }
      var g := TakeGn();
      var r := Record(request.value, g, pid);
      posted := [r];
      ok := remoteOk;
      if remoteOk {
        ghost var at := AddPrincipal(r);
      }
    }

    /** The whole deletion handler when nothing interleaves: at most the latest generation is deleted remotely. */
    method DeletePrincipal(request: Option<Uint64>, pid: nat, uid: nat, remoteOk: bool)
      returns (ok: bool, sent: seq<Record>)
      modifies this`principals
      ensures request.None? ==> !ok && sent == [] && principals == old(principals)
      ensures request.Some? ==>
                var (table, outcome) := Erase(old(principals), request.value, pid, uid);
                && principals == table
                && sent == (if outcome.Erased? then [outcome.latest] else [])
                && (ok <==> outcome.Erased? && remoteOk)
    {
      if request.None? {
        return false, [];
      }
      var outcome := EraseLatest(request.value, pid, uid);
      ok := outcome.Erased? && remoteOk;
      sent := if outcome.Erased? then [outcome.latest] else [];
    }

    /** The lookup of the latest generation. */
    method GetLocal(id: Uint64) returns (found: Option<Record>)
      ensures found == Latest(Bucket(principals, id))
      ensures found.None? <==> Bucket(principals, id) == []
      ensures found.Some? ==> found.value in Bucket(principals, id)
      ensures found.Some? ==> forall r :: r in Bucket(principals, id) ==> r.gn <= found.value.gn
    {
      found := ScanLatest(Bucket(principals, id));
      LatestIsGreatest(Bucket(principals, id));
    }
  }
}
