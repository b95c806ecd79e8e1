/** Threshold verification: enough valid signatures from distinct authorised certificates. */
module Thresholds {
  import opened Base

  datatype Certificate = Certificate(name: string, publicKey: Bytes, notBefore: nat, notAfter: nat,
                                     issuer: string, issuerSignature: Bytes)

  datatype CertSignature = CertSignature(certName: string, signature: Bytes)

  datatype TrustedRoot = TrustedRoot(name: string, publicKey: Bytes)

  datatype CertError =
    | UntrustedIssuer(issuer: string)
    | NotYetValid(name: string, notBefore: nat, now: nat)
    | Expired(name: string, notAfter: nat, now: nat)
    | InvalidKeyLength(expected: nat, got: nat)
    | InvalidIssuerSignature(name: string)
    | InvalidKey
    | InvalidPathSignature
    | InsufficientSignatures(required: nat, valid: nat)

  /** Ed25519: whether a key is a curve point, and whether a signature over a payload verifies. */
  datatype Crypto = Crypto(
    isKey: Bytes -> bool,
    verify: (Bytes, Bytes, Bytes) -> bool,
    payload: Certificate -> Bytes)

  /** What is fixed during one verification. */
  datatype Context = Context(crypto: Crypto, certs: seq<Certificate>, roots: seq<TrustedRoot>,
                             fingerprint: Bytes, now: nat)

  function FindRoot(roots: seq<TrustedRoot>, name: string): Option<TrustedRoot> {
    if roots == [] then None
    else if roots[0].name == name then Some(roots[0])
    else FindRoot(roots[1..], name)
  }

  function FindCert(certs: seq<Certificate>, name: string): Option<Certificate> {
    if certs == [] then None
    else if certs[0].name == name then Some(certs[0])
    else FindCert(certs[1..], name)
  }

  /** The certificate's key, if a trusted root vouches for it at this time. */
  function VerifyChain(x: Context, cert: Certificate): Result<Bytes, CertError> {
    match FindRoot(x.roots, cert.issuer)
    case None => Err(UntrustedIssuer(cert.issuer))
    case Some(root) =>
      if x.now < cert.notBefore then Err(NotYetValid(cert.name, cert.notBefore, x.now))
      else if x.now > cert.notAfter then Err(Expired(cert.name, cert.notAfter, x.now))
      else if |cert.issuerSignature| != 64 then Err(InvalidKeyLength(64, |cert.issuerSignature|))
      else if !x.crypto.verify(root.publicKey, x.crypto.payload(cert), cert.issuerSignature)
      then Err(InvalidIssuerSignature(cert.name))
      else if |cert.publicKey| != 32 then Err(InvalidKeyLength(32, |cert.publicKey|))
      else if !x.crypto.isKey(cert.publicKey) then Err(InvalidKey)
      else Ok(cert.publicKey)
  }

  function VerifyPathSignature(x: Context, key: Bytes, sig: CertSignature): Result<(), CertError> {
    if |sig.signature| != 64 then Err(InvalidKeyLength(64, |sig.signature|))
    else if !x.crypto.verify(key, x.fingerprint, sig.signature) then Err(InvalidPathSignature)
    else Ok(())
  }

  /** Whether `sig` is a valid signature by the authorised certificate it names. */
  predicate ValidSignature(x: Context, sig: CertSignature) {
    match FindCert(x.certs, sig.certName)
    case None => false
    case Some(cert) =>
      var key := VerifyChain(x, cert);
      key.Ok? && VerifyPathSignature(x, key.value, sig).Ok?
  }

  function FirstFor(sigs: seq<CertSignature>, name: string): Option<CertSignature> {
    if sigs == [] then None
    else if sigs[0].certName == name then Some(sigs[0])
    else FirstFor(sigs[1..], name)
  }

  /** The names whose first signature in the list is valid. */
  function Signers(x: Context, sigs: seq<CertSignature>): set<string> {
    set sig | sig in sigs && FirstFor(sigs, sig.certName) == Some(sig) && ValidSignature(x, sig) :: sig.certName
  }

  /** The names with a valid signature anywhere in the list. */
  function AnySigners(x: Context, sigs: seq<CertSignature>): set<string> {
    set sig | sig in sigs && ValidSignature(x, sig) :: sig.certName
  }

  /** What the loop knows after the signatures `sigs`. */
  ghost predicate Counted(x: Context, sigs: seq<CertSignature>, seen: set<string>, validCount: nat) {
    && (forall name :: name in seen <==> FindCert(x.certs, name).Some? && FirstFor(sigs, name).Some?)
    && validCount == |Signers(x, sigs)|
  }

  method VerifyThreshold(threshold: nat, x: Context, sigs: seq<CertSignature>) returns (r: Result<(), CertError>)
    ensures r.Ok? <==> threshold <= |Signers(x, sigs)|
    ensures r.Err? ==> r.error == InsufficientSignatures(threshold, |Signers(x, sigs)|)
    ensures SignersCount(x, sigs)
  {
    if threshold == 0 {
      AllSignersAreAuthorised(x, sigs);
      return Ok(());
    }
    var validCount: nat := 0;
    var seen: set<string> := {};
    var i := 0;
    while i < |sigs|
      invariant 0 <= i <= |sigs|
      invariant Counted(x, sigs[..i], seen, validCount) && validCount < threshold
    {
      assert sigs[..i + 1] == sigs[..i] + [sigs[i]];
      seen, validCount := CountSignature(x, sigs[i], seen, validCount, sigs[..i]);
      i := i + 1;
      if validCount >= threshold {
        PrefixCountsLess(x, sigs, i);
        AllSignersAreAuthorised(x, sigs);
        return Ok(());
      }
    }
    assert sigs[..i] == sigs;
    AllSignersAreAuthorised(x, sigs);
    r := Err(InsufficientSignatures(threshold, validCount));
  }

  /** The loop's treatment of one signature. */
  method CountSignature(x: Context, sig: CertSignature, seen: set<string>, validCount: nat,
                        ghost before: seq<CertSignature>)
    returns (seen': set<string>, validCount': nat)
    requires Counted(x, before, seen, validCount)
    ensures Counted(x, before + [sig], seen', validCount')
  {
    CountedSnoc(x, before, sig, seen, validCount);
    seen', validCount' := seen, validCount;
    var cert := FindCert(x.certs, sig.certName);
    if cert.None? || sig.certName in seen {
      return;
    }
    seen' := seen + {sig.certName};
    var key := VerifyChain(x, cert.value);
    if key.Ok? && VerifyPathSignature(x, key.value, sig).Ok? {
      validCount' := validCount + 1;
    }
  }

  lemma CountedSnoc(x: Context, sigs: seq<CertSignature>, sig: CertSignature, seen: set<string>, validCount: nat)
    requires Counted(x, sigs, seen, validCount)
    ensures var counts := FindCert(x.certs, sig.certName).Some? && sig.certName !in seen;
            Counted(x, sigs + [sig], if counts then seen + {sig.certName} else seen,
                    if counts && ValidSignature(x, sig) then validCount + 1 else validCount)
  {
    forall name
      ensures FirstFor(sigs + [sig], name).Some? <==> FirstFor(sigs, name).Some? || name == sig.certName
    {
      FirstForAppend(sigs, [sig], name);
    }
    SignerCountSnoc(x, sigs, sig);
  }

  lemma SignerCountSnoc(x: Context, sigs: seq<CertSignature>, sig: CertSignature)
    ensures |Signers(x, sigs + [sig])|
            == |Signers(x, sigs)| + if FirstFor(sigs, sig.certName).None? && ValidSignature(x, sig) then 1 else 0
  {
    SignersSnoc(x, sigs, sig);
  }

  lemma {:induction false} FirstForExact(sigs: seq<CertSignature>, name: string)
    ensures FirstFor(sigs, name).Some? <==> exists sig :: sig in sigs && sig.certName == name
    ensures FirstFor(sigs, name).Some? ==>
              FirstFor(sigs, name).value in sigs && FirstFor(sigs, name).value.certName == name
  {
    if sigs != [] {
      FirstForExact(sigs[1..], name);
    }
  }

  lemma {:induction false} FirstForAppend(sigs: seq<CertSignature>, more: seq<CertSignature>, name: string)
    ensures FirstFor(sigs + more, name)
            == if FirstFor(sigs, name).Some? then FirstFor(sigs, name) else FirstFor(more, name)
  {
    if sigs == [] {
      assert sigs + more == more;
    } else {
      assert (sigs + more)[1..] == sigs[1..] + more;
      FirstForAppend(sigs[1..], more, name);
    }
  }

  lemma SignersExact(x: Context, sigs: seq<CertSignature>, name: string)
    ensures name in Signers(x, sigs)
            <==> FirstFor(sigs, name).Some? && ValidSignature(x, FirstFor(sigs, name).value)
  {
  }

  lemma SignersSnoc(x: Context, sigs: seq<CertSignature>, sig: CertSignature)
    ensures Signers(x, sigs + [sig])
            == Signers(x, sigs) + (if FirstFor(sigs, sig.certName).None? && ValidSignature(x, sig)
                                   then {sig.certName} else {})
    ensures FirstFor(sigs, sig.certName).None? ==> sig.certName !in Signers(x, sigs)
    ensures FirstFor(sigs, sig.certName).None? <==> forall s :: s in sigs ==> s.certName != sig.certName
  {
    FirstForExact(sigs, sig.certName);
    forall name
      ensures name in Signers(x, sigs + [sig])
              <==> name in Signers(x, sigs)
                   || (name == sig.certName && FirstFor(sigs, name).None? && ValidSignature(x, sig))
    {
      SignersExact(x, sigs, name);
      SignersExact(x, sigs + [sig], name);
      FirstForAppend(sigs, [sig], name);
      assert FirstFor([sig], name) == if sig.certName == name then Some(sig) else None;
    }
  }

  /** More signatures never hurt if they come last. */
  lemma SignersGrow(x: Context, sigs: seq<CertSignature>, more: seq<CertSignature>)
    ensures Signers(x, sigs) <= Signers(x, sigs + more)
    ensures |Signers(x, sigs)| <= |Signers(x, sigs + more)|
  {
    forall name | name in Signers(x, sigs)
      ensures name in Signers(x, sigs + more)
    {
      SignersExact(x, sigs, name);
      SignersExact(x, sigs + more, name);
      FirstForAppend(sigs, more, name);
    }
    SubsetSize(Signers(x, sigs), Signers(x, sigs + more));
  }

  lemma PrefixCountsLess(x: Context, sigs: seq<CertSignature>, i: nat)
    requires i <= |sigs|
    ensures |Signers(x, sigs[..i])| <= |Signers(x, sigs)|
  {
    SignersGrow(x, sigs[..i], sigs[i..]);
    assert sigs[..i] + sigs[i..] == sigs;
  }

  // --- Which names count ---

  ghost predicate FirstCert(certs: seq<Certificate>, i: int, name: string) {
    0 <= i < |certs| && certs[i].name == name && forall k :: 0 <= k < i ==> certs[k].name != name
  }

  ghost predicate FirstRoot(roots: seq<TrustedRoot>, i: int, name: string) {
    0 <= i < |roots| && roots[i].name == name && forall k :: 0 <= k < i ==> roots[k].name != name
  }

  ghost predicate FirstSignature(sigs: seq<CertSignature>, i: int, name: string) {
    0 <= i < |sigs| && sigs[i].certName == name && forall k :: 0 <= k < i ==> sigs[k].certName != name
  }

  /** `root` signed `cert`, which is in date, and the key of `cert` signed the path. */
  ghost predicate Vouched(x: Context, root: TrustedRoot, cert: Certificate, sig: CertSignature) {
    && cert.notBefore <= x.now <= cert.notAfter
    && |cert.issuerSignature| == 64
    && x.crypto.verify(root.publicKey, x.crypto.payload(cert), cert.issuerSignature)
    && |cert.publicKey| == 32 && x.crypto.isKey(cert.publicKey)
    && |sig.signature| == 64
    && x.crypto.verify(cert.publicKey, x.fingerprint, sig.signature)
  }

  /** The first authorised certificate of that name, the first root of its issuer's name and the first
      signature that names it fit together. */
  ghost predicate Counts(x: Context, sigs: seq<CertSignature>, name: string) {
    exists c, r, s ::
      && FirstCert(x.certs, c, name) && FirstRoot(x.roots, r, x.certs[c].issuer) && FirstSignature(sigs, s, name)
      && Vouched(x, x.roots[r], x.certs[c], sigs[s])
  }

  /** A name counts exactly if a root vouches for its certificate and its first signature is genuine. */
  lemma SignersAreAuthorised(x: Context, sigs: seq<CertSignature>, name: string)
    ensures name in Signers(x, sigs) <==> Counts(x, sigs, name)
  {
    SignersExact(x, sigs, name);
    var c := CertAt(x.certs, name);
    var s := SignatureAt(sigs, name);
    if c >= 0 && s >= 0 {
      var r := RootAt(x.roots, x.certs[c].issuer);
      if Counts(x, sigs, name) {
        var c', r', s' :|
          && FirstCert(x.certs, c', name) && FirstRoot(x.roots, r', x.certs[c'].issuer)
          && FirstSignature(sigs, s', name)
          && Vouched(x, x.roots[r'], x.certs[c'], sigs[s']);
        assert c' == c && s' == s && r' == r;
      }
    }
  }

  ghost predicate SignersCount(x: Context, sigs: seq<CertSignature>) {
    forall name :: name in Signers(x, sigs) <==> Counts(x, sigs, name)
  }

  lemma AllSignersAreAuthorised(x: Context, sigs: seq<CertSignature>)
    ensures SignersCount(x, sigs)
  {
    forall name
      ensures name in Signers(x, sigs) <==> Counts(x, sigs, name)
    {
      SignersAreAuthorised(x, sigs, name);
    }
  }

  lemma {:induction false} CertAt(certs: seq<Certificate>, name: string) returns (i: int)
    ensures if i < 0 then FindCert(certs, name).None? && forall k :: 0 <= k < |certs| ==> certs[k].name != name
            else FirstCert(certs, i, name) && FindCert(certs, name) == Some(certs[i])
  {
    if certs == [] {
      i := -1;
    } else if certs[0].name == name {
      i := 0;
    } else {
      i := CertAt(certs[1..], name);
      assert forall k :: 0 < k < |certs| ==> certs[k] == certs[1..][k - 1];
      i := if i < 0 then i else i + 1;
    }
  }

  lemma {:induction false} RootAt(roots: seq<TrustedRoot>, name: string) returns (i: int)
    ensures if i < 0 then FindRoot(roots, name).None? && forall k :: 0 <= k < |roots| ==> roots[k].name != name
            else FirstRoot(roots, i, name) && FindRoot(roots, name) == Some(roots[i])
  {
    if roots == [] {
      i := -1;
    } else if roots[0].name == name {
      i := 0;
    } else {
      i := RootAt(roots[1..], name);
      assert forall k :: 0 < k < |roots| ==> roots[k] == roots[1..][k - 1];
      i := if i < 0 then i else i + 1;
    }
  }

  lemma {:induction false} SignatureAt(sigs: seq<CertSignature>, name: string) returns (i: int)
    ensures if i < 0 then FirstFor(sigs, name).None? && forall k :: 0 <= k < |sigs| ==> sigs[k].certName != name
            else FirstSignature(sigs, i, name) && FirstFor(sigs, name) == Some(sigs[i])
  {
    if sigs == [] {
      i := -1;
    } else if sigs[0].certName == name {
      i := 0;
    } else {
      i := SignatureAt(sigs[1..], name);
      assert forall k :: 0 < k < |sigs| ==> sigs[k] == sigs[1..][k - 1];
      i := if i < 0 then i else i + 1;
    }
  }

  /** As many certificates are counted as have a valid signature exactly if none of these has an
      invalid one listed first. */
  lemma FirstSignatureDecides(x: Context, sigs: seq<CertSignature>)
    ensures |Signers(x, sigs)| <= |AnySigners(x, sigs)|
    ensures |Signers(x, sigs)| == |AnySigners(x, sigs)|
            <==> forall sig :: sig in sigs && ValidSignature(x, sig) ==> ValidSignature(x, FirstOf(sigs, sig))
  {
    var some, any := Signers(x, sigs), AnySigners(x, sigs);
    assert some <= any;
    SubsetSize(some, any);
    forall sig | sig in sigs && ValidSignature(x, sig)
      ensures sig.certName in any && (sig.certName in some <==> ValidSignature(x, FirstOf(sigs, sig)))
    {
      SignersExact(x, sigs, sig.certName);
      FirstForExact(sigs, sig.certName);
      assert FirstFor(sigs, sig.certName) == Some(FirstOf(sigs, sig));
    }
    if forall sig :: sig in sigs && ValidSignature(x, sig) ==> ValidSignature(x, FirstOf(sigs, sig)) {
      assert some == any;
    }
  }

  function FirstOf(sigs: seq<CertSignature>, sig: CertSignature): CertSignature
    requires sig in sigs
  {
    FirstForExact(sigs, sig.certName);
    FirstFor(sigs, sig.certName).value
  }

  /** The order matters: an invalid signature hides a later valid one of the same certificate. */
  lemma InvalidFirstHidesValid(x: Context, good: CertSignature, bad: CertSignature)
    requires ValidSignature(x, good) && !ValidSignature(x, bad) && good.certName == bad.certName
    ensures Signers(x, [bad, good]) == {} && Signers(x, [good, bad]) == {good.certName}
  {
    assert [bad] + [good] == [bad, good] && [good] + [bad] == [good, bad];
    SignersSnoc(x, [], bad);
    SignersSnoc(x, [bad], good);
    SignersSnoc(x, [], good);
    SignersSnoc(x, [good], bad);
    assert [] + [bad] == [bad] && [] + [good] == [good];
  }
}
