/** coreapi/callbacks.c: retrying a rejected outgoing call with a weaker media profile. */
module MediaFallback {
  import opened Wrappers

  datatype Encryption = NoEncryption | SRTP | ZRTP | DTLS

  /** The call parameters that the fallback lowers. */
  datatype Profile = Profile(encryption: Encryption, avpf: bool)

  datatype CallState = OutgoingInit | OutgoingProgress | OutgoingRinging | OutgoingEarlyMedia | OtherState

  /** A local stream: active if it has an RTP port; the crypto attributes offered on it. */
  datatype Stream = Stream(active: bool, crypto: seq<string>)

  predicate Offering(state: CallState) { !state.OtherState? }

  function FirstActive(streams: seq<Stream>): (i: nat)
    ensures i <= |streams| && (i < |streams| ==> streams[i].active)
    ensures forall j :: 0 <= j < i ==> !streams[j].active
  {
    if streams == [] || streams[0].active then 0 else 1 + FirstActive(streams[1..])
  }

  /** The profile of the retry, if there is one. */
  function Lowered(p: Profile, mandatory: bool): Option<Profile> {
    if p.avpf then Some(p.(avpf := false))
    else if p.encryption.SRTP? && !mandatory then Some(p.(encryption := NoEncryption))
    else None
  }

  function Retry(p: Profile, state: CallState, streams: seq<Stream>, mandatory: bool): Option<Profile> {
    if Offering(state) && FirstActive(streams) < |streams| then Lowered(p, mandatory) else None
  }

  class Call {
    var state: CallState
    var profile: Profile
    var streams: seq<Stream>
    var restarts: nat

    constructor (state: CallState, profile: Profile, streams: seq<Stream>)
      ensures this.state == state && this.profile == profile && this.streams == streams && restarts == 0
    {
      this.state, this.profile, this.streams, restarts := state, profile, streams, 0;
    }

    // The remote refused the media: true if the invite is sent again, false if the failure is reported.
    method NotAcceptable(mandatory: bool) returns (restarted: bool)
      modifies `profile, `streams, `restarts
      ensures match Retry(old(profile), old(state), old(streams), mandatory)
              case Some(p) => restarted && profile == p && restarts == old(restarts) + 1
              case None => !restarted && profile == old(profile) && restarts == old(restarts)
      ensures var i := FirstActive(old(streams));
              streams == if restarted && profile.encryption != old(profile).encryption
                         then old(streams)[i := Stream(true, [])] else old(streams)
      ensures restarted ==> !profile.avpf
      ensures restarted && old(profile).avpf ==> profile.encryption == old(profile).encryption
      ensures restarted && !old(profile).avpf ==> old(profile).encryption == SRTP && profile.encryption == NoEncryption && !mandatory
    {
      if Offering(state) {
        var i := 0;
        while i < |streams|
          invariant 0 <= i <= |streams| && profile == old(profile) && restarts == old(restarts)
          invariant streams == old(streams)
          invariant FirstActive(streams) < i ==> Lowered(profile, mandatory).None?
          decreases |streams| - i
        {
          if streams[i].active {
            if profile.encryption.SRTP? {
              if profile.avpf {
                profile := profile.(avpf := false);
                restarts := restarts + 1;
                return true;
              } else if !mandatory {
                profile := profile.(encryption := NoEncryption);
                streams := streams[i := streams[i].(crypto := [])];
                restarts := restarts + 1;
                return true;
              }
            } else if profile.avpf {
              profile := profile.(avpf := false);
              restarts := restarts + 1;
              return true;
            }
          }
          i := i + 1;
        }
      }
      restarted := false;
    }
  }

  // ---- any sequence of refusals

  /** One refusal: the state of the call, its streams and the policy at that moment. */
  datatype Refusal = Refusal(state: CallState, streams: seq<Stream>, mandatory: bool)

  function Refuse(p: Profile, r: Refusal): Profile {
    match Retry(p, r.state, r.streams, r.mandatory) case None => p case Some(q) => q
  }

  function RefuseAll(p: Profile, rs: seq<Refusal>): Profile {
    if rs == [] then p else Refuse(RefuseAll(p, rs[..|rs| - 1]), rs[|rs| - 1])
  }

  function Restarts(p: Profile, rs: seq<Refusal>): nat {
    if rs == [] then 0
    else
      var last := rs[|rs| - 1];
      Restarts(p, rs[..|rs| - 1])
      + if Retry(RefuseAll(p, rs[..|rs| - 1]), last.state, last.streams, last.mandatory).Some? then 1 else 0
  }

  function Rank(p: Profile): nat { (if p.encryption.SRTP? then 1 else 0) + (if p.avpf then 1 else 0) }

  // Each restart lowers the profile by exactly one step, so there are at most two.
  lemma {:induction false} AtMostTwoRestarts(p: Profile, rs: seq<Refusal>)
    ensures Restarts(p, rs) == Rank(p) - Rank(RefuseAll(p, rs))
    ensures Restarts(p, rs) <= 2
  {
    if rs != [] { AtMostTwoRestarts(p, rs[..|rs| - 1]); }
  }

  // Encryption is given up only when the policy allows it at that moment, and only after AVPF: an SRTP call whose policy
  // requires encryption throughout keeps SRTP, and no retry offers AVPF that the call did not have.
  lemma {:induction false} PolicyRespected(p: Profile, rs: seq<Refusal>)
    ensures p.encryption.SRTP? && (forall r <- rs :: r.mandatory) ==> RefuseAll(p, rs).encryption.SRTP?
    ensures RefuseAll(p, rs).encryption == p.encryption || (p.encryption.SRTP? && RefuseAll(p, rs) == Profile(NoEncryption, false))
    ensures RefuseAll(p, rs).avpf ==> p.avpf
  {
    if rs != [] {
      assert rs[|rs| - 1] in rs && forall r <- rs[..|rs| - 1] :: r in rs;
      PolicyRespected(p, rs[..|rs| - 1]);
    }
  }

  // A call that is still offering an active stream is given up exactly when nothing is left to lower.
  lemma GivenUpExactlyAtTheBottom(p: Profile, state: CallState, streams: seq<Stream>, mandatory: bool)
    ensures Retry(p, state, streams, mandatory).None? <==>
              || state !in {OutgoingInit, OutgoingProgress, OutgoingRinging, OutgoingEarlyMedia}
              || (forall s <- streams :: !s.active) 
              || (!p.avpf && (p.encryption.SRTP? ==> mandatory))
  {
    var i := FirstActive(streams);
    if i < |streams| {
      assert streams[i] in streams;
    } else {
      forall s | s in streams ensures !s.active {
        var j :| 0 <= j < |streams| && streams[j] == s;
      }
    }
  }
}
