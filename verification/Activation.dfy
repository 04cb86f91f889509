/** The activation transition protocol (crates/domain/src/activation.rs) over the OS adapter
    (crates/activation-os/src/lib.rs): remove, verify, register, verify, on a host whose calls may fail. */
module Activation {
  import opened Options

  datatype Mode = Login | System

  datatype State = Inactive | Active(mode: Mode) | RequiresApproval(mode: Mode) | Unknown

  /** The raw entries registered with the operating system. */
  datatype Host = Host(login: bool, system: bool) {
    predicate Has(mode: Mode) { if mode.Login? then login else system }
    function With(mode: Mode, on: bool): Host { if mode.Login? then this.(login := on) else this.(system := on) }
  }

  const NOTHING := Host(false, false)

  ghost predicate AtMostOne(h: Host) { !(h.login && h.system) }

  ghost predicate Exactly(h: Host, mode: Mode) { h == NOTHING.With(mode, true) }

  /** How the operating system answers its n-th call: it fails and changes nothing, or it works; a
      veto query also reports the veto. */
  datatype Answer = Fails | Works(veto: Option<bool>)

  type Script = nat -> Answer

  datatype Outcome = Activated(mode: Mode) | Deactivated | NeedsApproval(mode: Mode)

  datatype Error =
    | PriorModeNotRemoved(observed: State)
    | RegistrationFailed
    | VerificationFailed(observed: State)
    | ConsentMissing(mode: Mode)

  datatype Result = Ok(outcome: Outcome) | Err(error: Error)

  /** A finished transition: its result, every state the host went through, and the calls made. */
  datatype Transition = Transition(result: Result, trail: seq<Host>, next: nat)

  // ---- The adapter ----

  function DeriveModeState(present: bool, vetoed: Option<bool>, mode: Mode): State {
    if !present then Inactive else if vetoed == Some(true) then RequiresApproval(mode) else Active(mode)
  }

  /** Lines 133-160: the system entry first; any failed query makes the state unknown. */
  function Observe(h: Host, script: Script, k: nat): (State, nat) {
    if script(k).Fails? then (Unknown, k + 1)
    else if h.system then
      if script(k + 1).Fails? then (Unknown, k + 2) else (DeriveModeState(true, script(k + 1).veto, System), k + 2)
    else if script(k + 1).Fails? then (Unknown, k + 2)
    else if script(k + 2).Fails? then (Unknown, k + 3)
    else (DeriveModeState(h.login, script(k + 2).veto, Login), k + 3)
  }

  /** Lines 169-174: the host after each of the two removals, and whether both worked. */
  function Removals(h: Host, script: Script, k: nat): (bool, seq<Host>, nat) {
    if script(k).Fails? then (false, [h], k + 1)
    else
      var h1 := h.With(Login, false);
      if script(k + 1).Fails? then (false, [h, h1], k + 2) else (true, [h, h1, h1.With(System, false)], k + 2)
  }

  // ---- The policy ----

  function Final(trail: seq<Host>): Host
    requires trail != []
  {
    trail[|trail| - 1]
  }

  /** Lines 70-83: register the target and read it back. */
  function Register(trail: seq<Host>, script: Script, k: nat, target: Mode): (t: Transition)
    requires trail != []
    ensures t.trail != []
  {
    if script(k).Fails? then Transition(Err(RegistrationFailed), trail, k + 1)
    else
      var trail' := trail + [Final(trail).With(target, true)];
      var (seen, k') := Observe(Final(trail'), script, k + 1);
      var result :=
        if seen == Active(target) then Ok(Activated(target))
        else if seen == RequiresApproval(target) then Ok(NeedsApproval(target))
        else Err(VerificationFailed(seen));
      Transition(result, trail', k')
  }

  /** Lines 50-84. */
  function Enable(h: Host, script: Script, k: nat, target: Mode): (t: Transition)
    ensures t.trail != []
  {
    var (first, k1) := Observe(h, script, k);
    if (first.Active? || first.RequiresApproval?) && first.mode != target then
      var (removed, trail, k2) := Removals(h, script, k1);
      if !removed then Transition(Err(RegistrationFailed), trail, k2)
      else
        var (second, k3) := Observe(Final(trail), script, k2);
        if second != Inactive then Transition(Err(PriorModeNotRemoved(second)), trail, k3)
        else Register(trail, script, k3, target)
    else Register([h], script, k1, target)
  }

  /** Lines 87-96. */
  function Disable(h: Host, script: Script, k: nat): (t: Transition)
    ensures t.trail != []
  {
    var (removed, trail, k1) := Removals(h, script, k);
    if !removed then Transition(Err(RegistrationFailed), trail, k1)
    else
      var (seen, k2) := Observe(Final(trail), script, k1);
      Transition(if seen == Inactive then Ok(Deactivated) else Err(VerificationFailed(seen)), trail, k2)
  }

  // ---- Observation ----

  /** What is observed, unless unknown, is what is registered; the system entry speaks first. */
  lemma ObserveSound(h: Host, script: Script, k: nat)
    ensures var seen := Observe(h, script, k).0;
            && (seen == Inactive ==> h == NOTHING)
            && (seen.Active? || seen.RequiresApproval? ==> h.Has(seen.mode) && (seen.mode == Login ==> !h.system))
            && (h == NOTHING ==> seen == Inactive || seen == Unknown)
  {
  }

  /** When no query fails, the observation is the host's: the system mode if it is registered, else the
      login mode if that is, each as awaiting approval exactly when it is vetoed. */
  lemma ObserveComplete(h: Host, script: Script, k: nat)
    requires script(k).Works? && script(k + 1).Works? && (!h.system ==> script(k + 2).Works?)
    ensures var (seen, next) := Observe(h, script, k);
            var veto := script(next - 1).veto;
            && next == k + (if h.system then 2 else 3)
            && (seen == Inactive <==> h == NOTHING)
            && (seen == RequiresApproval(System) <==> h.system && veto == Some(true))
            && (seen == Active(System) <==> h.system && veto != Some(true))
            && (seen == RequiresApproval(Login) <==> h == Host(true, false) && veto == Some(true))
            && (seen == Active(Login) <==> h == Host(true, false) && veto != Some(true))
  {
  }

  /** It is unknown exactly when one of the queries it needs fails. */
  lemma ObserveUnknownIff(h: Host, script: Script, k: nat)
    ensures Observe(h, script, k).0 == Unknown
            <==> script(k).Fails? || script(k + 1).Fails? || (!h.system && script(k + 2).Fails?)
  {
  }

  // ---- Enable ----

  ghost predicate AllAtMostOne(trail: seq<Host>) {
    forall i :: 0 <= i < |trail| ==> AtMostOne(trail[i])
  }

  function Other(mode: Mode): Mode { if mode.Login? then System else Login }

  /** The transition registers the target although its first look at the host was blind. */
  ghost predicate BlindDouble(h: Host, script: Script, k: nat, target: Mode) {
    var (first, k1) := Observe(h, script, k);
    first == Unknown && h.Has(Other(target)) && script(k1).Works?
  }

  /** From a host with at most one mode, every step of `enable` keeps at most one, exactly unless the
      first observation was unknown, the other mode was registered, and the registration worked. */
  lemma EnableExclusiveIff(h: Host, script: Script, k: nat, target: Mode)
    requires AtMostOne(h)
    ensures AllAtMostOne(Enable(h, script, k, target).trail) <==> !BlindDouble(h, script, k, target)
  {
    var t := Enable(h, script, k, target);
    ObserveSound(h, script, k);
    if BlindDouble(h, script, k, target) {
      assert t.trail[1] == h.With(target, true);
    }
  }

  /** Where the registration call is made, if it is: the host it finds and the number of the call. Either
      the other mode was seen, removed and seen gone, or nothing had to be removed. */
  ghost function RegistrationPoint(h: Host, script: Script, k: nat, target: Mode): Option<(Host, nat)> {
    var (first, k1) := Observe(h, script, k);
    if first != Active(Other(target)) && first != RequiresApproval(Other(target)) then Some((h, k1))
    else if script(k1).Works? && script(k1 + 1).Works? && Observe(NOTHING, script, k1 + 2).0 == Inactive then
      Some((NOTHING, Observe(NOTHING, script, k1 + 2).1))
    else None
  }

  /** From any host, success means the target is registered, alone exactly when the other mode was not
      there at the registration call; from a host with at most one mode that is a blind double. */
  lemma EnableSucceeds(h: Host, script: Script, k: nat, target: Mode)
    ensures var t, point := Enable(h, script, k, target), RegistrationPoint(h, script, k, target);
            t.result.Ok? ==>
              && (t.result.outcome == Activated(target) || t.result.outcome == NeedsApproval(target))
              && point.Some? && Final(t.trail).Has(target)
              && (Exactly(Final(t.trail), target) <==> !point.value.0.Has(Other(target)))
              && (AtMostOne(h) ==> (point.value.0.Has(Other(target)) <==> BlindDouble(h, script, k, target)))
  {
    ObserveSound(h, script, k);
  }

  /** Which success it is: approval is still needed exactly when the veto query of the read-back reports a
      veto, and is never folded into an activation. */
  lemma EnableOutcomeIff(h: Host, script: Script, k: nat, target: Mode)
    ensures var t, point := Enable(h, script, k, target), RegistrationPoint(h, script, k, target);
            t.result.Ok? && point.Some? ==>
              var answer := script(point.value.1 + if target == System then 2 else 3);
              && answer.Works?
              && (t.result.outcome == NeedsApproval(target) <==> answer.veto == Some(true))
              && (t.result.outcome == Activated(target) <==> answer.veto != Some(true))
  {
    EndsAtPoint(h, script, k, target);
    var point := RegistrationPoint(h, script, k, target);
    if point.Some? {
      ObserveSound(point.value.0.With(target, true), script, point.value.1 + 1);
    }
  }

  /** Which error it is: a prior mode is reported where the removal worked but is not seen; a failed
      registration where a removal or the registration call fails; otherwise the read-back is reported. */
  lemma EnableErrorIs(h: Host, script: Script, k: nat, target: Mode)
    ensures var t, point, k1 := Enable(h, script, k, target), RegistrationPoint(h, script, k, target), Observe(h, script, k).1;
            t.result.Err? ==>
              if point.None? then
                if script(k1).Works? && script(k1 + 1).Works? then t.result.error == PriorModeNotRemoved(Unknown)
                else t.result.error == RegistrationFailed
              else if script(point.value.1).Fails? then t.result.error == RegistrationFailed
              else t.result.error == VerificationFailed(Observe(point.value.0.With(target, true), script, point.value.1 + 1).0)
  {
    EndsAtPoint(h, script, k, target);
    if RegistrationPoint(h, script, k, target).None? {
      ObserveSound(NOTHING, script, Observe(h, script, k).1 + 2);
    }
  }

  /** The registration works on a host that lacks the target, and then either it cannot be read back, or
      it was made beside a system entry, which hides it. */
  ghost predicate UnseenAt(found: Host, script: Script, n: nat, target: Mode) {
    && script(n).Works? && !found.Has(target)
    && (Observe(found.With(target, true), script, n + 1).0 == Unknown || (found.system && target == Login))
  }

  ghost predicate FailsAfterRegistering(h: Host, script: Script, k: nat, target: Mode) {
    var point := RegistrationPoint(h, script, k, target);
    point.Some? && UnseenAt(point.value.0, script, point.value.1, target)
  }

  /** Of two registered modes the login entry is removed, and the removal of the system entry fails. */
  ghost predicate HalfRemoved(h: Host, script: Script, k: nat) {
    h == Host(true, true) && script(k).Works? && script(k + 1).Fails?
  }

  /** The transition sees the other mode and stops halfway through the removal. */
  ghost predicate StopsHalfway(h: Host, script: Script, k: nat, target: Mode) {
    var (first, k1) := Observe(h, script, k);
    (first == Active(Other(target)) || first == RequiresApproval(Other(target))) && HalfRemoved(h, script, k1)
  }

  /** The transition failed and the host is neither inactive nor as it was. */
  ghost predicate BadError(h: Host, t: Transition)
    requires t.trail != []
  {
    t.result.Err? && Final(t.trail) != NOTHING && Final(t.trail) != h
  }

  /** From any host, an error leaves it neither inactive nor as it was exactly when the call fails after
      registering, or stops halfway through the removal of two modes. */
  lemma EnableErrorIff(h: Host, script: Script, k: nat, target: Mode)
    ensures BadError(h, Enable(h, script, k, target))
            <==> FailsAfterRegistering(h, script, k, target) || StopsHalfway(h, script, k, target)
  {
    var point, t := RegistrationPoint(h, script, k, target), Enable(h, script, k, target);
    EndsAtPoint(h, script, k, target);
    if point.Some? {
      ErrorAtPoint(h, point.value.0, script, point.value.1, target, t);
    }
  }

  /** Without a registration call the host ends inactive, unchanged or half removed; with one, `enable`
      ends as registering there does. */
  lemma EndsAtPoint(h: Host, script: Script, k: nat, target: Mode)
    ensures var t, point := Enable(h, script, k, target), RegistrationPoint(h, script, k, target);
            if point.None? then BadError(h, t) <==> StopsHalfway(h, script, k, target)
            else
              var r := Register([point.value.0], script, point.value.1, target);
              && !StopsHalfway(h, script, k, target) && t.result == r.result && Final(t.trail) == Final(r.trail)
              && (point.value.0 == h || (point.value.0 == NOTHING && h.Has(Other(target))))
  {
    ObserveSound(h, script, k);
    var (first, k1) := Observe(h, script, k);
    if first == Active(Other(target)) || first == RequiresApproval(Other(target)) {
      var (removed, trail, k2) := Removals(h, script, k1);
      if removed { assert Final(trail) == NOTHING && k2 == k1 + 2; }
    }
  }

  lemma ErrorAtPoint(h: Host, found: Host, script: Script, n: nat, target: Mode, t: Transition)
    requires (found == h || (found == NOTHING && h.Has(Other(target)))) && t.trail != []
    requires var r := Register([found], script, n, target); t.result == r.result && Final(t.trail) == Final(r.trail)
    ensures BadError(h, t) <==> UnseenAt(found, script, n, target)
  {
    ObserveSound(found.With(target, true), script, n + 1);
  }

  /** The exceptions happen: a double registration that is reported as a success, a registration that
      is not read back, and one that is hidden behind the system entry. */
  lemma ExceptionsHappen()
    ensures exists script :: BlindDouble(Host(true, false), script, 0, System)
                             && Enable(Host(true, false), script, 0, System).result == Ok(Activated(System))
    ensures exists script :: FailsAfterRegistering(NOTHING, script, 0, Login)
                             && Enable(NOTHING, script, 0, Login).result == Err(VerificationFailed(Unknown))
    ensures exists script :: FailsAfterRegistering(Host(false, true), script, 0, Login)
                             && Enable(Host(false, true), script, 0, Login).result == Err(VerificationFailed(Active(System)))
  {
    var blind: Script := n => if n == 0 then Fails else Works(None);
    assert Observe(Host(true, false), blind, 0) == (Unknown, 1);
    assert BlindDouble(Host(true, false), blind, 0, System);
    assert Enable(Host(true, false), blind, 0, System).result == Ok(Activated(System));
    assert Observe(Host(false, true), blind, 0) == (Unknown, 1);
    assert FailsAfterRegistering(Host(false, true), blind, 0, Login);
    assert Enable(Host(false, true), blind, 0, Login).result == Err(VerificationFailed(Active(System)));
    var unread: Script := n => if n == 4 then Fails else Works(None);
    assert Observe(NOTHING, unread, 0) == (Inactive, 3);
    assert FailsAfterRegistering(NOTHING, unread, 0, Login);
    assert Enable(NOTHING, unread, 0, Login).result == Err(VerificationFailed(Unknown));
  }

  // ---- Disable ----

  /** Success of `disable` means nothing is registered; from any host, an error leaves it neither inactive
      nor as it was exactly when the removal of two modes stops halfway. From at most one mode every step
      keeps at most one. */
  lemma DisableErrorIff(h: Host, script: Script, k: nat)
    ensures var t := Disable(h, script, k);
            && (t.result.Ok? ==> Final(t.trail) == NOTHING)
            && (BadError(h, t) <==> HalfRemoved(h, script, k))
            && (AtMostOne(h) ==> AllAtMostOne(t.trail))
  {
  }

  /** `disable` succeeds exactly when both removals and the three queries after them work, and otherwise
      names what went wrong. */
  lemma DisableGrantedIff(h: Host, script: Script, k: nat)
    ensures var result := Disable(h, script, k).result;
            var removed := script(k).Works? && script(k + 1).Works?;
            var seen := script(k + 2).Works? && script(k + 3).Works? && script(k + 4).Works?;
            result == if !removed then Err(RegistrationFailed)
                      else if !seen then Err(VerificationFailed(Unknown)) else Ok(Deactivated)
  {
  }

  /** Where no call fails, `enable` succeeds from any host and leaves exactly the target, unless the other
      mode was there beside a target it saw. */
  lemma EnableWorks(h: Host, script: Script, k: nat, target: Mode)
    requires forall n: nat :: k <= n ==> script(n).Works?
    ensures var t := Enable(h, script, k, target);
            t.result.Ok? && (Exactly(Final(t.trail), target) || (h == Host(true, true) && target == System))
  {
  }

  /** A run in which that happens: consent, a blind double registration reported as a success, and a
      removal that stops halfway. */
  lemma HalfRemovedExample(record: ConsentRecord)
    requires record.mode == System
    ensures var script: Script := n => if n == 0 || n == 5 then Fails else Works(None);
            var start := Office(Host(true, false), [], 0);
            var on := RunTrail(start, script, [Grant(record), TurnOn(System)]).1;
            var t := Disable(on.host, script, on.calls);
            && on.host == Host(true, true) && t.result == Err(RegistrationFailed) && Final(t.trail) == Host(false, true)
  {
    var script: Script := n => if n == 0 || n == 5 then Fails else Works(None);
    var start := Office(Host(true, false), [], 0);
    var cs := [Grant(record), TurnOn(System)];
    var granted := Obey(start, script, Grant(record)).0;
    assert granted.granted[0].mode == System;
    assert Observe(Host(true, false), script, 0) == (Unknown, 1);
    var t := Enable(Host(true, false), script, 0, System);
    assert t.trail == [Host(true, false), Host(true, true)] && t.next == 4;
    var on := Obey(granted, script, TurnOn(System)).0;
    assert on.host == Host(true, true) && on.calls == 4;
    assert cs[1..] == [TurnOn(System)] && cs[1..][1..] == [];
    assert RunTrail(on, script, []).1 == on;
    assert RunTrail(granted, script, cs[1..]).1 == on;
    assert RunTrail(start, script, cs).1 == on;
  }

  // ---- Consent, over whole runs ----

  datatype ConsentRecord = ConsentRecord(mode: Mode, autonomyLevel: string, spendCeiling: string)

  predicate HasConsented(granted: seq<ConsentRecord>, mode: Mode) {
    exists i :: 0 <= i < |granted| && granted[i].mode == mode
  }

  /** Lines 135-144. */
  function EnableWithConsent(h: Host, granted: seq<ConsentRecord>, script: Script, k: nat, target: Mode): (t: Transition)
    ensures t.trail != []
  {
    if !HasConsented(granted, target) then Transition(Err(ConsentMissing(target)), [h], k)
    else Enable(h, script, k, target)
  }

  /** The consent gate: it refuses exactly where no record names the mode, whatever was granted for the
      other one, and then makes no call. */
  lemma ConsentGate(h: Host, granted: seq<ConsentRecord>, script: Script, k: nat, target: Mode)
    ensures var t := EnableWithConsent(h, granted, script, k, target);
            && (t.result == Err(ConsentMissing(target)) <==> forall i :: 0 <= i < |granted| ==> granted[i].mode != target)
            && (t.result == Err(ConsentMissing(target)) ==> t.trail == [h] && t.next == k)
            && (t.result != Err(ConsentMissing(target)) ==> t == Enable(h, script, k, target))
  {
    EnableErrorIs(h, script, k, target);
  }

  datatype Command = Grant(record: ConsentRecord) | TurnOn(target: Mode) | TurnOff

  /** The host, the consents given so far, and the number of OS calls made. */
  datatype Office = Office(host: Host, granted: seq<ConsentRecord>, calls: nat)

  function Obey(o: Office, script: Script, c: Command): (Office, seq<Host>) {
    match c
    case Grant(record) => (o.(granted := o.granted + [record]), [o.host])
    case TurnOn(target) =>
      var t := EnableWithConsent(o.host, o.granted, script, o.calls, target);
      (o.(host := Final(t.trail), calls := t.next), t.trail)
    case TurnOff =>
      var t := Disable(o.host, script, o.calls);
      (o.(host := Final(t.trail), calls := t.next), t.trail)
  }

  /** Every host state of a run of commands. */
  function RunTrail(o: Office, script: Script, cs: seq<Command>): (seq<Host>, Office)
    decreases |cs|
  {
    if cs == [] then ([o.host], o)
    else
      var (o', trail) := Obey(o, script, cs[0]);
      var (rest, end) := RunTrail(o', script, cs[1..]);
      (trail + rest, end)
  }

  /** No command of the run is a registration behind a blind first look. */
  ghost predicate NeverBlind(o: Office, script: Script, cs: seq<Command>)
    decreases |cs|
  {
    cs == [] ||
    (!IsBlind(o, script, cs[0]) && NeverBlind(Obey(o, script, cs[0]).0, script, cs[1..]))
  }

  /** Over any run of commands every state of the host, inside and between transitions, has at most one
      mode registered, exactly when no command is a blind double registration. */
  lemma {:induction false} RunExclusive(o: Office, script: Script, cs: seq<Command>)
    requires AtMostOne(o.host)
    ensures AllAtMostOne(RunTrail(o, script, cs).0) <==> NeverBlind(o, script, cs)
    decreases |cs|
  {
    if cs != [] {
      var (o', trail) := Obey(o, script, cs[0]);
      var rest := RunTrail(o', script, cs[1..]).0;
      CommandExclusive(o, script, cs[0]);
      AllAtMostOneConcat(trail, rest);
      if AllAtMostOne(trail) {
        assert AtMostOne(trail[|trail| - 1]);
        RunExclusive(o', script, cs[1..]);
      }
    }
  }

  ghost predicate IsBlind(o: Office, script: Script, c: Command) {
    c.TurnOn? && HasConsented(o.granted, c.target) && BlindDouble(o.host, script, o.calls, c.target)
  }

  lemma CommandExclusive(o: Office, script: Script, c: Command)
    requires AtMostOne(o.host)
    ensures AllAtMostOne(Obey(o, script, c).1) <==> !IsBlind(o, script, c)
    ensures Obey(o, script, c).1 != [] && Obey(o, script, c).0.host == Final(Obey(o, script, c).1)
  {
    match c
    case TurnOn(target) =>
      if HasConsented(o.granted, target) { EnableExclusiveIff(o.host, script, o.calls, target); }
    case TurnOff => DisableErrorIff(o.host, script, o.calls);
    case Grant(_) =>
  }

  lemma AllAtMostOneConcat(a: seq<Host>, b: seq<Host>)
    ensures AllAtMostOne(a + b) <==> AllAtMostOne(a) && AllAtMostOne(b)
  {
    assert forall i :: 0 <= i < |a| ==> (a + b)[i] == a[i];
    assert forall i :: 0 <= i < |b| ==> (a + b)[|a| + i] == b[i];
  }

  lemma EnableRegistersOnlyTarget(h: Host, script: Script, k: nat, target: Mode)
    ensures forall i :: 0 <= i < |Enable(h, script, k, target).trail| ==>
              (Enable(h, script, k, target).trail[i].Has(Other(target)) ==> h.Has(Other(target)))
  {
  }

  /** A mode that shows up anywhere in a run was registered at the start or consented to by the end. */
  lemma {:induction false} NothingWithoutConsent(o: Office, script: Script, cs: seq<Command>, i: nat, mode: Mode)
    requires i < |RunTrail(o, script, cs).0| && RunTrail(o, script, cs).0[i].Has(mode)
    ensures o.host.Has(mode) || HasConsented(RunTrail(o, script, cs).1.granted, mode)
    decreases |cs|
  {
    if cs != [] {
      var (o', trail) := Obey(o, script, cs[0]);
      if i < |trail| {
        CommandNeedsConsent(o, script, cs[0], i, mode);
      } else {
        NothingWithoutConsent(o', script, cs[1..], i - |trail|, mode);
        if o'.host.Has(mode) { CommandNeedsConsent(o, script, cs[0], |trail| - 1, mode); }
      }
      ConsentStays(o, script, cs, mode);
    }
  }

  lemma CommandNeedsConsent(o: Office, script: Script, c: Command, i: nat, mode: Mode)
    requires i < |Obey(o, script, c).1| && Obey(o, script, c).1[i].Has(mode)
    ensures o.host.Has(mode) || HasConsented(o.granted, mode)
  {
    if c.TurnOn? && HasConsented(o.granted, c.target) && c.target != mode {
      EnableRegistersOnlyTarget(o.host, script, o.calls, c.target);
    }
  }

  lemma {:induction false} ConsentStays(o: Office, script: Script, cs: seq<Command>, mode: Mode)
    ensures HasConsented(o.granted, mode) ==> HasConsented(RunTrail(o, script, cs).1.granted, mode)
    decreases |cs|
  {
    if cs != [] {
      var o' := Obey(o, script, cs[0]).0;
      ConsentStays(o', script, cs[1..], mode);
      if HasConsented(o.granted, mode) {
        var i :| 0 <= i < |o.granted| && o.granted[i].mode == mode;
        assert o'.granted[i].mode == mode;
      }
    }
  }

  // ---- The calls themselves ----

  lemma JoinTrails(a: seq<Host>, states: seq<Host>, more: seq<Host>)
    ensures states != [] && states <= more ==> (a + states[1..]) + more[|states|..] == a + more[1..]
  {
  }

  /** The adapter over a live host: each system call consumes the next answer. */
  class OsHost {
    const script: Script
    var host: Host
    var calls: nat
    /** Every state of the host after the first. */
    ghost var trail: seq<Host>

    constructor (script: Script, host: Host)
      ensures this.script == script && this.host == host && calls == 0 && trail == []
    {
      this.script, this.host, calls, trail := script, host, 0, [];
    }

    method Call() returns (answer: Answer)
      modifies this
      ensures answer == script(old(calls)) && calls == old(calls) + 1
      ensures host == old(host) && trail == old(trail)
    {
      answer := script(calls);
      calls := calls + 1;
    }

    /** A system call that sets or clears an entry, or fails unchanged. */
    method SetEntry(mode: Mode, on: bool) returns (ok: bool)
      modifies this
      ensures ok == script(old(calls)).Works? && calls == old(calls) + 1
      ensures host == if ok then old(host).With(mode, on) else old(host)
      ensures trail == if ok then old(trail) + [host] else old(trail)
    {
      var answer := Call();
      ok := answer.Works?;
      if ok {
        host := host.With(mode, on);
        trail := trail + [host];
      }
    }

    method ObserveState() returns (state: State)
      modifies this
      ensures (state, calls) == Observe(old(host), script, old(calls))
      ensures host == old(host) && trail == old(trail)
    {
      var systemPresent := Call();
      if systemPresent.Fails? {
        return Unknown;
      }
      if host.system {
        var vetoed := Call();
        return if vetoed.Fails? then Unknown else DeriveModeState(true, vetoed.veto, System);
      }
      var loginPresent := Call();
      if loginPresent.Fails? {
        return Unknown;
      }
      var vetoed := Call();
      return if vetoed.Fails? then Unknown else DeriveModeState(host.login, vetoed.veto, Login);
    }

    method RemoveEntries() returns (ok: bool)
      modifies this
      ensures var (removed, states, next) := Removals(old(host), script, old(calls));
              ok == removed && calls == next && host == Final(states) && trail == old(trail) + states[1..]
    {
      ok := SetEntry(Login, false);
      if ok {
        ok := SetEntry(System, false);
      }
    }

    /** Lines 70-83 of activation.rs, after the host went through `states`. */
    method RegisterTarget(target: Mode, ghost states: seq<Host>) returns (result: Result)
      requires states != [] && host == Final(states)
      modifies this
      ensures var t := Register(states, script, old(calls), target);
              && result == t.result && calls == t.next && host == Final(t.trail)
              && states <= t.trail && trail == old(trail) + t.trail[|states|..]
    {
      var written := SetEntry(target, true);
      if !written {
        return Err(RegistrationFailed);
      }
      var seen := ObserveState();
      if seen == Active(target) {
        return Ok(Activated(target));
      }
      if seen == RequiresApproval(target) {
        return Ok(NeedsApproval(target));
      }
      return Err(VerificationFailed(seen));
    }

    /** Lines 50-84 of activation.rs. */
    method EnableMode(target: Mode) returns (result: Result)
      modifies this
      ensures var t := Enable(old(host), script, old(calls), target);
              result == t.result && calls == t.next && host == Final(t.trail) && trail == old(trail) + t.trail[1..]
    {
      ghost var before, states := trail, [host];
      var first := ObserveState();
      if (first.Active? || first.RequiresApproval?) && first.mode != target {
        states := Removals(host, script, calls).1;
        var removed := RemoveEntries();
        if !removed {
          return Err(RegistrationFailed);
        }
        var second := ObserveState();
        if second != Inactive {
          return Err(PriorModeNotRemoved(second));
        }
      }
      JoinTrails(before, states, Register(states, script, calls, target).trail);
      result := RegisterTarget(target, states);
    }

    /** Lines 87-96 of activation.rs. */
    method DisableModes() returns (result: Result)
      modifies this
      ensures var t := Disable(old(host), script, old(calls));
              result == t.result && calls == t.next && host == Final(t.trail) && trail == old(trail) + t.trail[1..]
    {
      var removed := RemoveEntries();
      if !removed {
        return Err(RegistrationFailed);
      }
      var seen := ObserveState();
      return if seen == Inactive then Ok(Deactivated) else Err(VerificationFailed(seen));
    }
  }

  /** Lines 111-130: consents are only ever added. */
  class ConsentLedger {
    var granted: seq<ConsentRecord>

    constructor ()
      ensures granted == []
    {
      granted := [];
    }

    method Record(record: ConsentRecord)
      modifies this
      ensures granted == old(granted) + [record]
    {
      granted := granted + [record];
    }

    method Consented(mode: Mode) returns (yes: bool)
      ensures yes <==> HasConsented(granted, mode)
    {
      for i := 0 to |granted|
        invariant forall k :: 0 <= k < i ==> granted[k].mode != mode
      {
        if granted[i].mode == mode {
          return true;
        }
      }
      return false;
    }
  }

  /** Lines 135-144: without consent no call reaches the host. */
  method EnableConsented(os: OsHost, ledger: ConsentLedger, target: Mode) returns (result: Result)
    modifies os
    ensures var t := EnableWithConsent(old(os.host), ledger.granted, os.script, old(os.calls), target);
            result == t.result && os.calls == t.next && os.host == Final(t.trail) && os.trail == old(os.trail) + t.trail[1..]
  {
    var consented := ledger.Consented(target);
    if !consented {
      return Err(ConsentMissing(target));
    }
    result := os.EnableMode(target);
  }
}
