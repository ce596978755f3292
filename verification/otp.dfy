/**
  The one-time-code ledger behind `RequestOtp` and `VerifyOtp`: a sequence
  of `OtpVerification` rows, a rate limit on issuing, and single-use
  verification. Times are seconds on one clock.
 */
module Otp {
  import opened Wrappers
  import opened Text
  import opened Models

  /** A code is valid for ten minutes after it is issued. */
  const Lifetime: int := 600

  /** A new code may be requested once the newest has at most five minutes left. */
  const ResendWindow: int := 300

  /** The `Random.Next(100000, 999999)` range: lower bound inclusive, upper exclusive. */
  predicate InCodeRange(draw: int) { 100000 <= draw < 999999 }

  predicate Matches(o: OtpRecord, target: string, kind: string) {
    o.target == target && o.kind == kind
  }

  /** A row the query considers; `pendingOnly` adds the `!o.Verified` filter. */
  predicate Candidate(o: OtpRecord, target: string, kind: string, pendingOnly: bool) {
    Matches(o, target, kind) && (!pendingOnly || !o.verified)
  }

  /**
    Position `i` is what `Where(..).OrderByDescending(o => o.ExpiresAt)
    .FirstOrDefault()` returns: a candidate that expires last, the earliest
    in storage order among equals.
   */
  predicate IsLatest(otps: seq<OtpRecord>, i: int, target: string, kind: string, pendingOnly: bool) {
    && 0 <= i < |otps|
    && Candidate(otps[i], target, kind, pendingOnly)
    && (forall j :: 0 <= j < |otps| && Candidate(otps[j], target, kind, pendingOnly)
          ==> otps[j].expiresAt <= otps[i].expiresAt)
    && (forall j :: 0 <= j < i && Candidate(otps[j], target, kind, pendingOnly)
          ==> otps[j].expiresAt < otps[i].expiresAt)
  }

  /** At most one position is the latest. */
  lemma LatestUnique(otps: seq<OtpRecord>, i: int, k: int, target: string, kind: string, pendingOnly: bool)
    requires IsLatest(otps, i, target, kind, pendingOnly) && IsLatest(otps, k, target, kind, pendingOnly)
    ensures i == k
  {
  }

  /** The query itself, scanning the rows in storage order. */
  function Latest(otps: seq<OtpRecord>, target: string, kind: string, pendingOnly: bool): (r: Option<nat>)
    ensures r.Some? ==> IsLatest(otps, r.value, target, kind, pendingOnly)
    ensures r.None? <==> forall j :: 0 <= j < |otps| ==> !Candidate(otps[j], target, kind, pendingOnly)
  {
    if |otps| == 0 then None
    else
      var last := |otps| - 1;
      var prev := Latest(otps[..last], target, kind, pendingOnly);
      assert forall j :: 0 <= j < last ==> otps[..last][j] == otps[j];
      if !Candidate(otps[last], target, kind, pendingOnly) then prev
      else if prev.Some? && otps[prev.value].expiresAt >= otps[last].expiresAt then prev
      else Some(last)
  }

  datatype Issue = Issued(otps: seq<OtpRecord>, code: string) | TooSoon

  /**
    `RequestOtp`'s ledger step at time `now`: refused while the newest code
    for (target, kind), verified or not, has more than five minutes left;
    otherwise a fresh unverified code, the decimal form of `draw`, is
    appended.
   */
  function Request(otps: seq<OtpRecord>, target: string, kind: string, now: int, draw: int): (r: Issue)
    requires InCodeRange(draw)
    ensures r.TooSoon? <==> exists j :: 0 <= j < |otps| && Matches(otps[j], target, kind)
                                         && otps[j].expiresAt - now > ResendWindow
    ensures r.Issued? ==> r.otps == otps + [OtpRecord(target, r.code, kind, false, now + Lifetime)]
    ensures r.Issued? ==> |r.code| == 6 && (forall i :: 0 <= i < 6 ==> IsDigit(r.code[i]))
                          && InCodeRange(DecimalValue(r.code))
  {
    var recent := Latest(otps, target, kind, false);
    if recent.Some? && otps[recent.value].expiresAt - now > ResendWindow then TooSoon
    else
      SixDigitCode(draw);
      var code := DecimalString(draw);
      Issued(otps + [OtpRecord(target, code, kind, false, now + Lifetime)], code)
  }

  datatype Check = Confirmed(otps: seq<OtpRecord>, index: nat) | Refused

  /**
    `VerifyOtp`'s ledger step: only the unverified code for (target, kind)
    that expires last is considered; it is refused when absent, when the
    code differs, or when it expired strictly before `now`. A confirmed code
    is marked verified and nothing else changes.
   */
  function Verify(otps: seq<OtpRecord>, target: string, kind: string, code: string, now: int): (r: Check)
    ensures r.Confirmed? <==>
              exists i :: IsLatest(otps, i, target, kind, true) && otps[i].code == code && otps[i].expiresAt >= now
    ensures r.Confirmed? ==> IsLatest(otps, r.index, target, kind, true)
    ensures r.Confirmed? ==> |r.otps| == |otps| && r.otps[r.index] == otps[r.index].(verified := true)
    ensures r.Confirmed? ==> forall j :: 0 <= j < |otps| && j != r.index ==> r.otps[j] == otps[j]
  {
    var pending := Latest(otps, target, kind, true);
    if pending.None? then Refused
    else
      var i := pending.value;
      if otps[i].code != code || otps[i].expiresAt < now then
        assert forall k :: IsLatest(otps, k, target, kind, true) ==> k == i by {
          forall k | IsLatest(otps, k, target, kind, true) ensures k == i {
            LatestUnique(otps, i, k, target, kind, true);
          }
        }
        Refused
      else Confirmed(otps[i := otps[i].(verified := true)], i)
  }

  // ---------------------------------------------------------------- ledger properties

  /**
    A code just issued at `t` is the one verification looks at: with the
    right code it is accepted up to and including its expiry instant
    `t + Lifetime`, and refused after it.
   */
  lemma RequestThenVerify(otps: seq<OtpRecord>, target: string, kind: string, t: int, draw: int, t': int)
    requires InCodeRange(draw) && Request(otps, target, kind, t, draw).Issued?
    ensures var r := Request(otps, target, kind, t, draw);
      var v := Verify(r.otps, target, kind, r.code, t');
      && (v.Confirmed? <==> t' <= t + Lifetime)
      && (v.Confirmed? ==> v.index == |otps|)
  {
    var r := Request(otps, target, kind, t, draw);
    var n := |otps|;
    forall j | 0 <= j < |r.otps| && Candidate(r.otps[j], target, kind, true)
      ensures r.otps[j].expiresAt <= r.otps[n].expiresAt
      ensures j < n ==> r.otps[j].expiresAt < r.otps[n].expiresAt
    {
      if j < n {
        assert r.otps[j] == otps[j];
      }
    }
    assert IsLatest(r.otps, n, target, kind, true);
    var v := Verify(r.otps, target, kind, r.code, t');
    if v.Confirmed? {
      LatestUnique(r.otps, v.index, n, target, kind, true);
    }
  }

  /**
    After a code is issued at `t`, a second request at any later `t2` is
    refused exactly while `t2` is less than five minutes after `t`.
   */
  lemma ResendBlockedForWindow(otps: seq<OtpRecord>, target: string, kind: string, t: int, draw: int, t2: int, draw2: int)
    requires InCodeRange(draw) && InCodeRange(draw2) && t <= t2
    requires Request(otps, target, kind, t, draw).Issued?
    ensures var r := Request(otps, target, kind, t, draw);
      Request(r.otps, target, kind, t2, draw2).TooSoon? <==> t2 < t + ResendWindow
  {
    var r := Request(otps, target, kind, t, draw);
    var n := |otps|;
    if t2 < t + ResendWindow {
      assert Matches(r.otps[n], target, kind) && r.otps[n].expiresAt - t2 > ResendWindow;
    } else {
      forall j | 0 <= j < |r.otps| && Matches(r.otps[j], target, kind)
        ensures r.otps[j].expiresAt - t2 <= ResendWindow
      {
        if j < n {
          assert r.otps[j] == otps[j];
        }
      }
    }
  }

  /** A code, once confirmed, is never confirmed again, whatever code or time is presented next. */
  lemma NoReuse(otps: seq<OtpRecord>, target: string, kind: string, code: string, now: int,
                code2: string, now2: int)
    requires Verify(otps, target, kind, code, now).Confirmed?
    ensures var v := Verify(otps, target, kind, code, now);
      var w := Verify(v.otps, target, kind, code2, now2);
      w.Confirmed? ==> w.index != v.index
  {
  }

  /** Confirming spends exactly one pending code for (target, kind). */
  lemma VerifySpendsOne(otps: seq<OtpRecord>, target: string, kind: string, code: string, now: int)
    requires Verify(otps, target, kind, code, now).Confirmed?
    ensures var v := Verify(otps, target, kind, code, now);
      PendingCount(v.otps, target, kind) + 1 == PendingCount(otps, target, kind)
  {
    var v := Verify(otps, target, kind, code, now);
    PendingCountUpdate(otps, v.index, v.otps[v.index], target, kind);
    assert otps[v.index := v.otps[v.index]] == v.otps;
  }

  /** The number of unverified codes for (target, kind). */
  function PendingCount(otps: seq<OtpRecord>, target: string, kind: string): nat {
    if |otps| == 0 then 0
    else PendingCount(otps[..|otps| - 1], target, kind)
         + (if Candidate(otps[|otps| - 1], target, kind, true) then 1 else 0)
  }

  lemma {:induction false} PendingCountUpdate(otps: seq<OtpRecord>, i: nat, o: OtpRecord, target: string, kind: string)
    requires i < |otps|
    ensures PendingCount(otps[i := o], target, kind)
            == PendingCount(otps, target, kind)
               - (if Candidate(otps[i], target, kind, true) then 1 else 0)
               + (if Candidate(o, target, kind, true) then 1 else 0)
  {
    var last := |otps| - 1;
    var s := otps[i := o];
    if i < last {
      PendingCountUpdate(otps[..last], i, o, target, kind);
      assert s[..last] == otps[..last][i := o];
    } else {
      assert s[..last] == otps[..last];
    }
  }

  /** Neither step un-verifies a code or touches rows other than its own. */
  lemma VerifiedStaysVerified(otps: seq<OtpRecord>, target: string, kind: string, now: int, draw: int, code: string)
    requires InCodeRange(draw)
    ensures var r := Request(otps, target, kind, now, draw);
      r.Issued? ==> r.otps[..|otps|] == otps
    ensures var v := Verify(otps, target, kind, code, now);
      v.Confirmed? ==> forall j :: 0 <= j < |otps| ==> (otps[j].verified ==> v.otps[j].verified)
  {
    var r := Request(otps, target, kind, now, draw);
    if r.Issued? {
      assert r.otps[..|otps|] == otps;
    }
  }
}
