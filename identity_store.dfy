/** apps/web/store/useIdentityStore.ts: the client-side identity store. Its
    state is five fields; each of the six actions overwrites some of them
    (zustand's `set` merges the given fields into the state). */
module IdentityStore {
  import opened Outcomes

  /** The five KYC steps; the type admits no other value. */
  datatype KycStep = Idle | Document | Biometric | ZkGeneration | Completed

  /** The keys of the proofs object. */
  datatype ProofType = Age | Nationality | Identity

  /** The state fields, with `null` as None and the optional proof members as
      a map that holds only the members that are set. */
  datatype IdentityState = IdentityState(
    stellarPublicKey: Option<string>,
    biometricId: Option<string>,
    kycCompleted: bool,
    kycStep: KycStep,
    proofs: map<ProofType, string>)

  /** The initial state: no keys, KYC not completed, step idle, no proofs. */
  const Initial := IdentityState(None, None, false, Idle, map[])

  /** One call of an action. */
  datatype Action =
    | SetStellarPublicKey(key: string)
    | SetBiometricId(id: string)
    | SetKycStep(step: KycStep)
    | SetProof(proofType: ProofType, proof: string)
    | CompleteKyc
    | Reset

  /** The state after one action: the fields that action passes to `set`
      are replaced, the others kept. */
  function Apply(s: IdentityState, a: Action): (r: IdentityState)
    ensures a.Reset? ==> r == Initial
    ensures a.CompleteKyc? ==> r.kycCompleted && r.kycStep == Completed
  {
    match a
    case SetStellarPublicKey(key) => s.(stellarPublicKey := Some(key))
    case SetBiometricId(id) => s.(biometricId := Some(id))
    case SetKycStep(step) => s.(kycStep := step)
    case SetProof(t, p) => s.(proofs := s.proofs[t := p])
    case CompleteKyc => s.(kycCompleted := true, kycStep := Completed)
    case Reset => Initial
  }

  /** The state after a sequence of actions, oldest first. */
  function Run(s: IdentityState, actions: seq<Action>): IdentityState
    decreases |actions|
  {
    if actions == [] then s else Apply(Run(s, actions[..|actions| - 1]), actions[|actions| - 1])
  }

  /** The three setters each change their own field and nothing else. */
  lemma SettersChangeOnlyTheirField(s: IdentityState, key: string, id: string, step: KycStep)
    ensures var r := Apply(s, SetStellarPublicKey(key));
      r.stellarPublicKey == Some(key) && r.biometricId == s.biometricId && r.kycCompleted == s.kycCompleted
      && r.kycStep == s.kycStep && r.proofs == s.proofs
    ensures var r := Apply(s, SetBiometricId(id));
      r.biometricId == Some(id) && r.stellarPublicKey == s.stellarPublicKey && r.kycCompleted == s.kycCompleted
      && r.kycStep == s.kycStep && r.proofs == s.proofs
    ensures var r := Apply(s, SetKycStep(step));
      r.kycStep == step && r.stellarPublicKey == s.stellarPublicKey && r.biometricId == s.biometricId
      && r.kycCompleted == s.kycCompleted && r.proofs == s.proofs
  {
  }

  /** setProof sets its own proof type and leaves every other type as it
      was, present or absent. */
  lemma SetProofKeepsOtherTypes(s: IdentityState, t: ProofType, p: string)
    ensures var r := Apply(s, SetProof(t, p));
      t in r.proofs && r.proofs[t] == p
      && (forall u :: u != t ==> (u in r.proofs <==> u in s.proofs))
      && (forall u :: u != t && u in s.proofs ==> r.proofs[u] == s.proofs[u])
      && r.(proofs := s.proofs) == s
  {
  }

  /** A later setProof of the same type overwrites the earlier one. */
  lemma SetProofOverwrites(s: IdentityState, t: ProofType, p: string, q: string)
    ensures Apply(Apply(s, SetProof(t, p)), SetProof(t, q)) == Apply(s, SetProof(t, q))
  {
    assert s.proofs[t := p][t := q] == s.proofs[t := q];
  }

  /** Proofs of different types can be set in either order. */
  lemma SetProofsCommute(s: IdentityState, t: ProofType, p: string, u: ProofType, q: string)
    requires t != u
    ensures Apply(Apply(s, SetProof(t, p)), SetProof(u, q)) == Apply(Apply(s, SetProof(u, q)), SetProof(t, p))
  {
    assert s.proofs[t := p][u := q] == s.proofs[u := q][t := p];
  }

  /** completeKyc sets the two KYC fields and keeps the rest. */
  lemma CompleteKycKeepsTheRest(s: IdentityState)
    ensures var r := Apply(s, CompleteKyc);
      r.stellarPublicKey == s.stellarPublicKey && r.biometricId == s.biometricId && r.proofs == s.proofs
  {
  }

  /** reset forgets everything before it: what follows it runs as from the
      initial state, whatever happened first. */
  lemma {:induction false} ResetForgets(s: IdentityState, before: seq<Action>, after: seq<Action>)
    ensures Run(s, before + [Reset] + after) == Run(Initial, after)
    decreases |after|
  {
    var all := before + [Reset] + after;
    if after == [] {
      assert all[..|all| - 1] == before;
    } else {
      var n := |after| - 1;
      assert all[..|all| - 1] == before + [Reset] + after[..n];
      ResetForgets(s, before, after[..n]);
    }
  }

  /** reset is idempotent. */
  lemma ResetIdempotent(s: IdentityState)
    ensures Apply(Apply(s, Reset), Reset) == Apply(s, Reset) == Initial
  {
  }

  /** From the initial state, kycCompleted is true exactly when some
      completeKyc call has no reset after it. */
  lemma {:induction false} KycCompletedIff(actions: seq<Action>)
    ensures Run(Initial, actions).kycCompleted <==>
      exists i :: 0 <= i < |actions| && actions[i] == CompleteKyc && forall j :: i < j < |actions| ==> actions[j] != Reset
    decreases |actions|
  {
    if actions != [] {
      var n := |actions| - 1;
      var init := actions[..n];
      KycCompletedIff(init);
      if Run(Initial, actions).kycCompleted {
        if actions[n] == CompleteKyc {
          assert actions[n] == CompleteKyc;
        } else {
          var i :| 0 <= i < n && init[i] == CompleteKyc && forall j :: i < j < n ==> init[j] != Reset;
          assert actions[i] == CompleteKyc && forall j :: i < j < |actions| ==> actions[j] != Reset;
        }
      } else {
        forall i | 0 <= i < |actions| && actions[i] == CompleteKyc
          ensures exists j :: i < j < |actions| && actions[j] == Reset
        {
          if i < n && actions[n] != Reset {
            assert init[i] == CompleteKyc;
            var j :| i < j < n && init[j] == Reset;
            assert actions[j] == Reset;
          }
        }
      }
    }
  }

  /** The kycCompleted flag and the step are set independently: after
      completeKyc, setKycStep can move the step back while the flag stays. */
  lemma CompletedFlagOutlivesStep()
    ensures var r := Run(Initial, [CompleteKyc, SetKycStep(Idle)]);
      r.kycCompleted && r.kycStep == Idle
  {
    assert [CompleteKyc, SetKycStep(Idle)][..1] == [CompleteKyc];
    assert [CompleteKyc][..0] == [];
  }

  /** The store object: the state fields, updated in place by the actions. */
  class Store {
    var stellarPublicKey: Option<string>
    var biometricId: Option<string>
    var kycCompleted: bool
    var kycStep: KycStep
    var proofs: map<ProofType, string>

    /** The current state as a value. */
    function State(): IdentityState
      reads this
    {
      IdentityState(stellarPublicKey, biometricId, kycCompleted, kycStep, proofs)
    }

    /** `create` with the initial state. */
    constructor()
      ensures State() == Initial
    {
      stellarPublicKey := None;
      biometricId := None;
      kycCompleted := false;
      kycStep := Idle;
      proofs := map[];
    }

    method SetStellarPublicKey(key: string)
      modifies this
      ensures State() == Apply(old(State()), Action.SetStellarPublicKey(key))
    {
      stellarPublicKey := Some(key);
    }

    method SetBiometricId(id: string)
      modifies this
      ensures State() == Apply(old(State()), Action.SetBiometricId(id))
    {
      biometricId := Some(id);
    }

    method SetKycStep(step: KycStep)
      modifies this
      ensures State() == Apply(old(State()), Action.SetKycStep(step))
    {
      kycStep := step;
    }

    /** `proofs: { ...state.proofs, [type]: proof }`. */
    method SetProof(t: ProofType, proof: string)
      modifies this
      ensures State() == Apply(old(State()), Action.SetProof(t, proof))
    {
      proofs := proofs[t := proof];
    }

    method CompleteKyc()
      modifies this
      ensures State() == Apply(old(State()), Action.CompleteKyc)
    {
      kycCompleted := true;
      kycStep := Completed;
    }

    method Reset()
      modifies this
      ensures State() == Apply(old(State()), Action.Reset)
    {
      stellarPublicKey := None;
      biometricId := None;
      kycCompleted := false;
      kycStep := Idle;
      proofs := map[];
    }
  }
}
