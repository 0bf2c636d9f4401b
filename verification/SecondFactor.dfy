/**
 Second factor and configuration transactions: `internal/server/totp.go`,
 `internal/auth/totp.go` and `Clone` of `internal/config/config.go`.  The slices of a
 configuration are arrays, so that a copy which shared them could change what is in use.
 */
module SecondFactor {
  import opened Prelude
  import opened Text

  /** Endpoints and secrets of this machine, but for the session secret. */
  datatype Local = Local(listen: string, dataDir: string, agentSocket: string, agentSecret: string,
                         secureCookie: bool, trustedProxy: string, webAuthnOrigin: string, webAuthnRpId: string)

  /** `others` stands for the switch and the recovery of the allowlist and for notifications. */
  datatype Settings = Settings(adminUser: string, passwordHash: string, sessionSecret: string, totpSecret: string,
                               autoRefresh: int, others: string, local: Local)

  const DEFAULT_REFRESH := 5

  datatype Passkey = Passkey(id: string, counter: nat)

  /** What a configuration says. */
  datatype Contents = Contents(settings: Settings, allowedRoots: seq<string>, hashes: seq<string>,
                               passkeys: seq<Passkey>, ipAllowlist: seq<string>)

  /** The one-time code check and the two keyed hashes, current and legacy. */
  datatype Crypto = Crypto(totp: (string, string, int) -> bool, mac: (string, string) -> string,
                           legacy: (string, string) -> string)

  // ----- Recovery codes -----

  ghost predicate Matches(crypto: Crypto, code: string, key: string, stored: string) {
    stored == crypto.mac(code, key) || stored == crypto.legacy(code, key)
  }

  /** Where the first stored hash of the code is, or the end. */
  ghost function FirstMatch(crypto: Crypto, code: string, key: string, hashes: seq<string>): (i: nat)
    ensures i <= |hashes|
    ensures forall k :: 0 <= k < i ==> !Matches(crypto, code, key, hashes[k])
    ensures i < |hashes| ==> Matches(crypto, code, key, hashes[i])
  {
    if hashes == [] || Matches(crypto, code, key, hashes[0]) then 0 else 1 + FirstMatch(crypto, code, key, hashes[1..])
  }

  function Without<T>(s: seq<T>, i: nat): seq<T>
    requires i < |s|
  {
    s[..i] + s[i + 1..]
  }

  /** `ConsumeRecoveryCode`: the hashes without the first one of the code, in new storage;
      or the very hashes given. */
  method ConsumeRecoveryCode(crypto: Crypto, code: string, key: string, hashes: array<string>)
    returns (remaining: array<string>, used: bool)
    ensures used <==> FirstMatch(crypto, code, key, hashes[..]) < hashes.Length
    ensures used ==> fresh(remaining) && remaining[..] == Without(hashes[..], FirstMatch(crypto, code, key, hashes[..]))
    ensures !used ==> remaining == hashes
  {
    var candidates := [crypto.mac(code, key), crypto.legacy(code, key)];
    for i := 0 to hashes.Length
      invariant forall k :: 0 <= k < i ==> !Matches(crypto, code, key, hashes[k])
    {
      for j := 0 to 2
        invariant forall k :: 0 <= k < j ==> candidates[k] != hashes[i]
      {
        if candidates[j] == hashes[i] {
          remaining := new string[hashes.Length - 1](k requires 0 <= k < hashes.Length - 1 reads hashes =>
            if k < i then hashes[k] else hashes[k + 1]);
          assert FirstMatch(crypto, code, key, hashes[..]) == i by {
            FirstMatchIs(crypto, code, key, hashes[..], i);
          }
          return remaining, true;
        }
      }
      assert candidates[0] != hashes[i] && candidates[1] != hashes[i];
    }
    return hashes, false;
  }

  lemma FirstMatchIs(crypto: Crypto, code: string, key: string, hashes: seq<string>, i: nat)
    requires i < |hashes| && Matches(crypto, code, key, hashes[i])
    requires forall k :: 0 <= k < i ==> !Matches(crypto, code, key, hashes[k])
    ensures FirstMatch(crypto, code, key, hashes) == i
  {
    assert FirstMatch(crypto, code, key, hashes) <= |hashes|;
  }

  // ----- Transactions on values -----

  /** A request and what its environment makes of it: `saves` says whether the file can be
      written. */
  datatype Event =
    | Verify(code: string, now: int, consume: bool, saves: bool)
    | Transact(code: string, now: int, change: Contents -> Option<Contents>, saves: bool)
    | Enable(secret: string, codes: seq<string>, saves: bool)
    | Disable(saves: bool)
    | Regenerate(codes: seq<string>, saves: bool)
    | Import(archive: Contents, saves: bool) // of a backup

  datatype Reply = Accepted(recovery: bool) | CodeRequired | CodeInvalid | Declined | Unsaved

  ghost function HashAll(crypto: Crypto, codes: seq<string>, key: string): seq<string> {
    seq(|codes|, i requires 0 <= i < |codes| => crypto.mac(codes[i], key))
  }

  /** What a code is worth. */
  datatype Factor = NotAsked | OneTime | Recovery(index: nat) | Wrong

  ghost function FactorOf(crypto: Crypto, c: Contents, code: string, now: int): (factor: Factor)
    ensures factor.Recovery? ==> factor.index < |c.hashes|
  {
    if c.settings.totpSecret == "" then NotAsked
    else if crypto.totp(c.settings.totpSecret, code, now) then OneTime
    else
      var i := FirstMatch(crypto, code, c.settings.sessionSecret, c.hashes);
      if i < |c.hashes| then Recovery(i) else Wrong
  }

  /** The configuration without a recovery code that was used. */
  ghost function Spent(c: Contents, factor: Factor): Contents
    requires factor.Recovery? ==> factor.index < |c.hashes|
  {
    if factor.Recovery? then c.(hashes := Without(c.hashes, factor.index)) else c
  }

  ghost function Refusal(crypto: Crypto, c: Contents, code: string, now: int): Option<Reply> {
    if c.settings.totpSecret != "" && code == "" then Some(CodeRequired)
    else if FactorOf(crypto, c, code, now) == Wrong then Some(CodeInvalid)
    else None
  }

  /** What an event makes of the configuration, and the answer. */
  ghost function Outcome(crypto: Crypto, c: Contents, e: Event): (Contents, Reply) {
    match e
    case Verify(code, now, consume, saves) =>
      (match FactorOf(crypto, c, TrimSpace(code), now)
       case NotAsked => (c, Accepted(false))
       case OneTime => (c, Accepted(false))
       case Wrong => (c, CodeInvalid)
       case Recovery(i) =>
         if !consume then (c, Accepted(true))
         else if saves then (Spent(c, Recovery(i)), Accepted(true))
         else (c, Unsaved))
    case Transact(code, now, change, saves) =>
      var refusal := Refusal(crypto, c, TrimSpace(code), now);
      if refusal.Some? then (c, refusal.value) else
      var factor := FactorOf(crypto, c, TrimSpace(code), now);
      (match change(Spent(c, factor))
       case None => (c, Declined)
       case Some(output) => if saves then (output, Accepted(factor.Recovery?)) else (c, Unsaved))
    case Enable(secret, codes, saves) =>
      var hashes := HashAll(crypto, codes, c.settings.sessionSecret);
      if saves then (c.(settings := c.settings.(totpSecret := secret), hashes := hashes), Accepted(false))
      else (c, Unsaved)
    case Disable(saves) =>
      if saves then (c.(settings := c.settings.(totpSecret := ""), hashes := []), Accepted(false)) else (c, Unsaved)
    case Regenerate(codes, saves) =>
      if saves then (c.(hashes := HashAll(crypto, codes, c.settings.sessionSecret)), Accepted(false)) else (c, Unsaved)
    case Import(archive, saves) =>
      if saves then (Merged(archive, c), Accepted(false)) else (c, Unsaved)
  }

  /** What an import makes of the configuration of a backup: machine-local fields and the key of
      the hashes stay. */
  ghost function Merged(archive: Contents, current: Contents): Contents {
    var a, c := archive.settings, current.settings;
    archive.(settings := a.(sessionSecret := c.sessionSecret, local := c.local,
                            autoRefresh := if a.autoRefresh == 0 then DEFAULT_REFRESH else a.autoRefresh))
  }

  // ----- A recovery code works once for every time it is stored -----

  /** How many of the hashes are of the code. */
  ghost function Worth(crypto: Crypto, code: string, key: string, hashes: seq<string>): nat {
    if hashes == [] then 0
    else (if Matches(crypto, code, key, hashes[0]) then 1 else 0) + Worth(crypto, code, key, hashes[1..])
  }

  lemma {:induction false} WorthConcat(crypto: Crypto, code: string, key: string, a: seq<string>, b: seq<string>)
    ensures Worth(crypto, code, key, a + b) == Worth(crypto, code, key, a) + Worth(crypto, code, key, b)
  {
    if a == [] {
      assert a + b == b;
    } else {
      WorthConcat(crypto, code, key, a[1..], b);
      assert (a + b)[1..] == a[1..] + b;
    }
  }

  lemma WorthWithout(crypto: Crypto, code: string, key: string, hashes: seq<string>, i: nat)
    requires i < |hashes|
    ensures Worth(crypto, code, key, hashes)
         == Worth(crypto, code, key, Without(hashes, i)) + (if Matches(crypto, code, key, hashes[i]) then 1 else 0)
  {
    assert hashes == hashes[..i] + hashes[i..] && hashes[i..][1..] == hashes[i + 1..];
    WorthConcat(crypto, code, key, hashes[..i], hashes[i..]);
    WorthConcat(crypto, code, key, hashes[..i], hashes[i + 1..]);
  }

  /** How often a configuration stores the code. */
  ghost function Stored(crypto: Crypto, code: string, c: Contents): nat {
    Worth(crypto, code, c.settings.sessionSecret, c.hashes)
  }

  ghost function Run(crypto: Crypto, c: Contents, es: seq<Event>): Contents
    decreases |es|
  {
    if es == [] then c else Run(crypto, Outcome(crypto, c, es[0]).0, es[1..])
  }

  /** The sum of a figure over the events of a run. */
  ghost function Sum(crypto: Crypto, figure: (Contents, Event) -> nat, c: Contents, es: seq<Event>): nat
    decreases |es|
  {
    if es == [] then 0 else figure(c, es[0]) + Sum(crypto, figure, Outcome(crypto, c, es[0]).0, es[1..])
  }

  /** The event is accepted for a recovery code that it uses up. */
  ghost predicate Consumes(crypto: Crypto, c: Contents, e: Event) {
    && (e.Verify? ==> e.consume) && (e.Verify? || e.Transact?)
    && Outcome(crypto, c, e).1 == Accepted(true)
  }

  /** One when the event is accepted for `code`, however it is spelled. */
  ghost function UsesOf(crypto: Crypto, code: string): (Contents, Event) -> nat {
    (c: Contents, e: Event) =>
      var key := c.settings.sessionSecret;
      if Consumes(crypto, c, e) && crypto.mac(TrimSpace(e.code), key) == crypto.mac(code, key)
         && crypto.legacy(TrimSpace(e.code), key) == crypto.legacy(code, key) then 1 else 0
  }

  /** One when the event takes away a hash of `code`. */
  ghost function TakenOf(crypto: Crypto, code: string): (Contents, Event) -> nat {
    (c: Contents, e: Event) =>
      if !Consumes(crypto, c, e) then 0 else
      var i := FirstMatch(crypto, TrimSpace(e.code), c.settings.sessionSecret, c.hashes);
      if i < |c.hashes| && Matches(crypto, code, c.settings.sessionSecret, c.hashes[i]) then 1 else 0
  }

  /** The event replaces all hashes. */
  ghost predicate Resets(e: Event) {
    (e.Enable? || e.Disable? || e.Regenerate? || e.Import?) && e.saves
  }

  /** The hashes of `code` that an event puts in. */
  ghost function IssuedOf(crypto: Crypto, code: string): (Contents, Event) -> nat {
    (c: Contents, e: Event) =>
      if !Resets(e) then 0 else Stored(crypto, code, Outcome(crypto, c, e).0)
  }

  /** The hashes of `code` that an event replaces. */
  ghost function WithdrawnOf(crypto: Crypto, code: string): (Contents, Event) -> nat {
    (c: Contents, e: Event) =>
      if !Resets(e) then 0 else Stored(crypto, code, c)
  }

  /** A mutation leaves the recovery codes and the key of their hashes alone. */
  ghost predicate KeepsCodes(change: Contents -> Option<Contents>) {
    forall c :: change(c).Some? ==>
      change(c).value.hashes == c.hashes && change(c).value.settings.sessionSecret == c.settings.sessionSecret
  }

  /** `changePassword`: fails if the password has changed meanwhile. */
  function SetPassword(expected: string, hash: string): Contents -> Option<Contents> {
    (c: Contents) =>
      if c.settings.passwordHash != expected then None
      else Some(c.(settings := c.settings.(passwordHash := hash)))
  }

  /** `changeUsername`: fails if password or name have changed meanwhile. */
  function SetUser(expectedHash: string, expectedUser: string, user: string): Contents -> Option<Contents> {
    (c: Contents) =>
      if c.settings.passwordHash != expectedHash || c.settings.adminUser != expectedUser then None
      else Some(c.(settings := c.settings.(adminUser := user)))
  }

  lemma CallersKeepCodes(a: string, b: string, c: string)
    ensures KeepsCodes(SetPassword(a, b)) && KeepsCodes(SetUser(a, b, c))
  {
  }

  /** An accepted change of the password replaces the expected one, and nothing else but a used
      recovery code; one of the name asks for the expected password and name. */
  lemma CallersChangeOneField(crypto: Crypto, c: Contents, code: string, now: int, saves: bool, hash: string,
                              user: string, value: string)
    ensures var (d, reply) := Outcome(crypto, c, Transact(code, now, SetPassword(hash, value), saves));
            && (reply == Declined ==> c.settings.passwordHash != hash)
            && (reply.Accepted? ==> c.settings.passwordHash == hash && d.settings.passwordHash == value
                                    && d == c.(settings := d.settings, hashes := d.hashes)
                                    && d.settings.(passwordHash := hash) == c.settings)
    ensures var (d, reply) := Outcome(crypto, c, Transact(code, now, SetUser(hash, user, value), saves));
            && (reply == Declined ==> c.settings.passwordHash != hash || c.settings.adminUser != user)
            && (reply.Accepted? ==> c.settings.passwordHash == hash && c.settings.adminUser == user
                                    && d.settings.adminUser == value
                                    && d == c.(settings := d.settings, hashes := d.hashes)
                                    && d.settings.(adminUser := user) == c.settings)
  {
  }

  lemma StepBalance(crypto: Crypto, c: Contents, e: Event, code: string)
    requires e.Transact? ==> KeepsCodes(e.change)
    ensures Stored(crypto, code, c) + IssuedOf(crypto, code)(c, e)
         == Stored(crypto, code, Outcome(crypto, c, e).0)
            + TakenOf(crypto, code)(c, e) + WithdrawnOf(crypto, code)(c, e)
  {
    if e.Verify? || e.Transact? {
      var factor := FactorOf(crypto, c, TrimSpace(e.code), e.now);
      if factor.Recovery? {
        WorthWithout(crypto, code, c.settings.sessionSecret, c.hashes, factor.index);
      }
    }
  }

  /** Over every run, the hashes of a code that were there or were issued are those that are
      left, were used up, or were replaced. */
  lemma {:induction false} RunBalance(crypto: Crypto, c: Contents, es: seq<Event>, code: string)
    requires forall e <- es :: e.Transact? ==> KeepsCodes(e.change)
    ensures Stored(crypto, code, c) + Sum(crypto, IssuedOf(crypto, code), c, es)
         == Stored(crypto, code, Run(crypto, c, es))
            + Sum(crypto, TakenOf(crypto, code), c, es) + Sum(crypto, WithdrawnOf(crypto, code), c, es)
    decreases |es|
  {
    if es != [] {
      StepBalance(crypto, c, es[0], code);
      RunBalance(crypto, Outcome(crypto, c, es[0]).0, es[1..], code);
    }
  }

  lemma {:induction false} UsesAreTaken(crypto: Crypto, c: Contents, es: seq<Event>, code: string)
    ensures Sum(crypto, UsesOf(crypto, code), c, es) <= Sum(crypto, TakenOf(crypto, code), c, es)
    decreases |es|
  {
    if es != [] {
      UsesAreTaken(crypto, Outcome(crypto, c, es[0]).0, es[1..], code);
    }
  }

  /** A code is accepted at most as often as it was stored or issued; without a reset, at
      most as often as it is stored. */
  lemma {:induction false} OneTimeOnly(crypto: Crypto, c: Contents, es: seq<Event>, code: string)
    requires forall e <- es :: e.Transact? ==> KeepsCodes(e.change)
    ensures Sum(crypto, UsesOf(crypto, code), c, es)
         <= Stored(crypto, code, c) + Sum(crypto, IssuedOf(crypto, code), c, es)
  {
    UsesAreTaken(crypto, c, es, code);
    RunBalance(crypto, c, es, code);
  }

  /** An import can bring a used code back: of the configuration of before, with the code in it. */
  lemma ImportBringsCodesBack(crypto: Crypto, c: Contents, code: string, now: int)
    requires FactorOf(crypto, c, TrimSpace(code), now).Recovery?
    ensures var login := Verify(code, now, true, true);
            Sum(crypto, UsesOf(crypto, TrimSpace(code)), c, [login, Import(c, true), login]) == 2
  {
    var login := Verify(code, now, true, true);
    var figure := UsesOf(crypto, TrimSpace(code));
    var spent := Outcome(crypto, c, login).0;
    var back := Outcome(crypto, spent, Import(c, true)).0;
    assert FactorOf(crypto, back, TrimSpace(code), now) == FactorOf(crypto, c, TrimSpace(code), now);
    var rest := [Import(c, true), login];
    assert [login, Import(c, true), login][1..] == rest && rest[1..] == [login] && [login][1..] == [];
    assert Sum(crypto, figure, c, [login, Import(c, true), login])
      == figure(c, login) + Sum(crypto, figure, spent, rest);
    assert Sum(crypto, figure, spent, rest) == figure(spent, Import(c, true)) + Sum(crypto, figure, back, [login]);
    var last := Outcome(crypto, back, login).0;
    assert Sum(crypto, figure, back, [login]) == figure(back, login) + Sum(crypto, figure, last, []);
    assert Consumes(crypto, c, login) && figure(c, login) == 1;
    assert Consumes(crypto, back, login) && figure(back, login) == 1;
    assert !Consumes(crypto, spent, Import(c, true)) && figure(spent, Import(c, true)) == 0;
    assert Sum(crypto, figure, last, []) == 0;
  }

  /** Every code that is issued is accepted as long as nothing comes between, with white space
      around it or without. */
  lemma NewCodeIsAccepted(crypto: Crypto, c: Contents, e: Event, code: string, given: string, now: int)
    requires (e.Enable? || e.Regenerate?) && e.saves && code in e.codes && TrimSpace(given) == code
    ensures Outcome(crypto, Outcome(crypto, c, e).0, Verify(given, now, true, true)).1.Accepted?
  {
    var issued := Outcome(crypto, c, e).0;
    var i :| 0 <= i < |e.codes| && e.codes[i] == code;
    assert issued.hashes[i] == crypto.mac(code, issued.settings.sessionSecret);
    assert Matches(crypto, code, issued.settings.sessionSecret, issued.hashes[i]);
    AcceptedIffEntitled(crypto, issued, Verify(given, now, true, true));
  }

  /** White space around what the user types makes no difference. */
  lemma SpaceIsIgnored(crypto: Crypto, c: Contents, before: string, code: string, behind: string, now: int,
                       consume: bool, saves: bool)
    requires AllSpace(before) && AllSpace(behind)
    ensures Outcome(crypto, c, Verify(before + code + behind, now, consume, saves))
            == Outcome(crypto, c, Verify(code, now, consume, saves))
  {
    TrimAround(before, code, behind);
  }

  /** What the user presents is good: no factor is set up, or it is the current one-time code,
      or one of the stored recovery codes. */
  ghost predicate Entitled(crypto: Crypto, c: Contents, code: string, now: int) {
    || c.settings.totpSecret == ""
    || crypto.totp(c.settings.totpSecret, code, now)
    || exists stored <- c.hashes :: Matches(crypto, code, c.settings.sessionSecret, stored)
  }

  /** Nobody else is let in, and nobody who is entitled is turned away, but for a failing save,
      a mutation that declines or, in a transaction, an empty code. */
  lemma AcceptedIffEntitled(crypto: Crypto, c: Contents, e: Event)
    requires e.Verify? || e.Transact?
    ensures var code := TrimSpace(e.code); var reply := Outcome(crypto, c, e).1;
            && (reply.Accepted? ==> Entitled(crypto, c, code, e.now))
            && (reply == Accepted(true) ==>
                  c.settings.totpSecret != "" && !crypto.totp(c.settings.totpSecret, code, e.now))
            && (e.saves && reply != Declined && (e.Transact? && c.settings.totpSecret != "" ==> code != "") ==>
                  (reply.Accepted? <==> Entitled(crypto, c, code, e.now)))
  {
  }

  /** Whatever is not accepted changes nothing, and nothing is accepted unsaved. */
  lemma OnlyAcceptedChanges(crypto: Crypto, c: Contents, e: Event)
    ensures Outcome(crypto, c, e).0 != c ==> Outcome(crypto, c, e).1.Accepted? && e.saves
  {
  }

  // ----- The same in place -----

  class Config {
    var settings: Settings
    var allowedRoots: array<string>
    var hashes: array<string>
    var passkeys: array<Passkey>
    var ipAllowlist: array<string>

    constructor (settings: Settings, allowedRoots: array<string>, hashes: array<string>, passkeys: array<Passkey>,
                 ipAllowlist: array<string>)
      ensures this.settings == settings && this.allowedRoots == allowedRoots && this.hashes == hashes
      ensures this.passkeys == passkeys && this.ipAllowlist == ipAllowlist
    {
      this.settings, this.allowedRoots, this.hashes := settings, allowedRoots, hashes;
      this.passkeys, this.ipAllowlist := passkeys, ipAllowlist;
    }

    function View(): Contents
      reads this, allowedRoots, hashes, passkeys, ipAllowlist
    {
      Contents(settings, allowedRoots[..], hashes[..], passkeys[..], ipAllowlist[..])
    }

    ghost function Slices(): set<object>
      reads this
    {
      {allowedRoots as object, hashes as object, passkeys as object, ipAllowlist as object}
    }

    /** A copy that shares no slice. */
    method Clone() returns (copy: Config)
      ensures fresh(copy) && fresh(copy.Slices()) && copy.View() == View()
    {
      var a := FromSeq(allowedRoots[..]);
      var h := FromSeq(hashes[..]);
      var p := FromSeq(passkeys[..]);
      var i := FromSeq(ipAllowlist[..]);
      copy := new Config(settings, a, h, p, i);
    }
  }

  method FromSeq<T>(s: seq<T>) returns (b: array<T>)
    ensures fresh(b) && b[..] == s
  {
    b := new T[|s|](i requires 0 <= i < |s| => s[i]);
  }

  /** A mutation given by a caller.  It may write to any part of its argument, in place or by
      new slices, and leave it half changed when it fails. */
  method Mutate(change: Contents -> Option<Contents>, updated: Config) returns (ok: bool)
    modifies updated, updated.Slices()
    ensures ok <==> change(old(updated.View())).Some?
    ensures ok ==> updated.View() == change(old(updated.View())).value
    ensures ok ==> forall x <- updated.Slices() :: x in old(updated.Slices()) || fresh(x)
  {
    var result := change(updated.View());
    var junk: string := *;
    forall i | 0 <= i < updated.allowedRoots.Length { updated.allowedRoots[i] := junk; }
    forall i | 0 <= i < updated.hashes.Length { updated.hashes[i] := junk; }
    if result.None? {
      return false;
    }
    var c := result.value;
    updated.settings := c.settings;
    updated.allowedRoots := FromSeq(c.allowedRoots);
    updated.hashes := FromSeq(c.hashes);
    updated.passkeys := FromSeq(c.passkeys);
    updated.ipAllowlist := FromSeq(c.ipAllowlist);
    return true;
  }

  class Server {
    const crypto: Crypto
    var cfg: Config

    /** The configuration file. */
    var file: Contents

    constructor (crypto: Crypto, cfg: Config)
      ensures this.crypto == crypto && this.cfg == cfg && InStep()
    {
      this.crypto, this.cfg, this.file := crypto, cfg, cfg.View();
    }

    /** The configuration in use is the one in the file. */
    ghost predicate InStep()
      reads this, cfg, cfg.Slices()
    {
      file == cfg.View()
    }

    method Save(updated: Config, saves: bool) returns (ok: bool)
      modifies this`file
      ensures ok == saves
      ensures file == if saves then updated.View() else old(file)
    {
      if saves {
        file := updated.View();
      }
      return saves;
    }

    /** `verifySecondFactor`. */
    method VerifySecondFactor(code: string, now: int, consume: bool, saves: bool) returns (reply: Reply)
      modifies this
      ensures (cfg.View(), reply) == Outcome(crypto, old(cfg.View()), Verify(code, now, consume, saves))
      ensures old(InStep()) ==> InStep()
      ensures if cfg == old(cfg) then file == old(file) else InStep() && fresh(cfg)
    {
      var trimmed := TrimSpace(code);
      if cfg.settings.totpSecret == "" {
        return Accepted(false);
      }
      if crypto.totp(cfg.settings.totpSecret, trimmed, now) {
        return Accepted(false);
      }
      var remaining, used := ConsumeRecoveryCode(crypto, trimmed, cfg.settings.sessionSecret, cfg.hashes);
      if !used {
        return CodeInvalid;
      }
      if !consume {
        return Accepted(true);
      }
      var updated := cfg.Clone();
      updated.hashes := remaining;
      var saved := Save(updated, saves);
      if !saved {
        return Unsaved;
      }
      cfg := updated;
      return Accepted(true);
    }

    /** The first half of `saveConfigWithSecondFactor`, on a copy of the configuration: a
        recovery code is taken off the copy. */
    method TakeFactor(updated: Config, code: string, now: int) returns (refusal: Option<Reply>, recoveryUsed: bool)
      modifies updated`hashes
      ensures updated.hashes == old(updated.hashes) || fresh(updated.hashes)
      ensures refusal == Refusal(crypto, old(updated.View()), code, now)
      ensures refusal.None? ==>
                var factor := FactorOf(crypto, old(updated.View()), code, now);
                recoveryUsed == factor.Recovery? && updated.View() == Spent(old(updated.View()), factor)
    {
      recoveryUsed := false;
      if updated.settings.totpSecret != "" {
        if code == "" {
          return Some(CodeRequired), false;
        }
        if !crypto.totp(updated.settings.totpSecret, code, now) {
          var remaining, used := ConsumeRecoveryCode(crypto, code, updated.settings.sessionSecret, updated.hashes);
          if !used {
            return Some(CodeInvalid), false;
          }
          updated.hashes := remaining;
          recoveryUsed := true;
        }
      }
      return None, recoveryUsed;
    }

    /** `saveConfigWithSecondFactor`.  Nothing reaches the configuration in use before the
        file is saved, whatever the mutation wrote to its copy. */
    method SaveConfigWithSecondFactor(code: string, now: int, change: Contents -> Option<Contents>, saves: bool)
      returns (reply: Reply)
      modifies this
      ensures (cfg.View(), reply) == Outcome(crypto, old(cfg.View()), Transact(code, now, change, saves))
      ensures old(InStep()) ==> InStep()
      ensures if cfg == old(cfg) then file == old(file) else InStep() && fresh(cfg)
    {
      var trimmed := TrimSpace(code);
      var updated := cfg.Clone();
      var refusal, recoveryUsed := TakeFactor(updated, trimmed, now);
      if refusal.Some? {
        return refusal.value;
      }
      var mutated := Mutate(change, updated);
      if !mutated {
        return Declined;
      }
      reply := Persist(updated, recoveryUsed, saves);
    }

    /** The end of `saveConfigWithSecondFactor`: the file first, and what is in use only then. */
    method Persist(updated: Config, recoveryUsed: bool, saves: bool) returns (reply: Reply)
      modifies this
      ensures reply == if saves then Accepted(recoveryUsed) else Unsaved
      ensures cfg == if saves then updated else old(cfg)
      ensures file == if saves then updated.View() else old(file)
    {
      var saved := Save(updated, saves);
      if !saved {
        return Unsaved;
      }
      cfg := updated;
      return Accepted(recoveryUsed);
    }

    /** The hashes of new codes. */
    method HashCodes(codes: seq<string>, key: string) returns (hashes: array<string>)
      ensures fresh(hashes) && hashes[..] == HashAll(crypto, codes, key)
    {
      var out: seq<string> := [];
      for i := 0 to |codes|
        invariant out == HashAll(crypto, codes, key)[..i]
      {
        out := out + [crypto.mac(codes[i], key)];
      }
      hashes := FromSeq(out);
    }

    /** The end of `totpConfirm`, after the pending secret has been confirmed. */
    method EnableSecondFactor(secret: string, codes: seq<string>, saves: bool) returns (reply: Reply)
      modifies this
      ensures (cfg.View(), reply) == Outcome(crypto, old(cfg.View()), Enable(secret, codes, saves))
      ensures old(InStep()) ==> InStep()
      ensures if cfg == old(cfg) then file == old(file) else InStep() && fresh(cfg)
    {
      var updated := cfg.Clone();
      updated.settings := updated.settings.(totpSecret := secret);
      updated.hashes := HashCodes(codes, updated.settings.sessionSecret);
      var saved := Save(updated, saves);
      if !saved {
        return Unsaved;
      }
      cfg := updated;
      return Accepted(false);
    }

    /** `totpDisable`. */
    method DisableSecondFactor(saves: bool) returns (reply: Reply)
      modifies this
      ensures (cfg.View(), reply) == Outcome(crypto, old(cfg.View()), Disable(saves))
      ensures old(InStep()) ==> InStep()
      ensures if cfg == old(cfg) then file == old(file) else InStep() && fresh(cfg)
    {
      var updated := cfg.Clone();
      updated.settings := updated.settings.(totpSecret := "");
      updated.hashes := new string[0];
      assert updated.hashes[..] == [];
      var saved := Save(updated, saves);
      if !saved {
        return Unsaved;
      }
      cfg := updated;
      return Accepted(false);
    }

    /** `totpRegenerateRecovery`. */
    method RegenerateRecovery(codes: seq<string>, saves: bool) returns (reply: Reply)
      modifies this
      ensures (cfg.View(), reply) == Outcome(crypto, old(cfg.View()), Regenerate(codes, saves))
      ensures old(InStep()) ==> InStep()
      ensures if cfg == old(cfg) then file == old(file) else InStep() && fresh(cfg)
    {
      var updated := cfg.Clone();
      updated.hashes := HashCodes(codes, updated.settings.sessionSecret);
      var saved := Save(updated, saves);
      if !saved {
        return Unsaved;
      }
      cfg := updated;
      return Accepted(false);
    }

    /** The part of `backupImport` that replaces the configuration, if nothing comes between
        its two steps. */
    method ImportConfig(archive: Contents, saves: bool) returns (reply: Reply)
      modifies this
      ensures (cfg.View(), reply) == Outcome(crypto, old(cfg.View()), Import(archive, saves))
      ensures old(InStep()) ==> InStep()
      ensures if cfg == old(cfg) then file == old(file) else InStep() && fresh(cfg)
      ensures reply.Accepted? ==>
                var a, c := archive.settings, cfg.settings;
                && c.adminUser == a.adminUser && c.passwordHash == a.passwordHash && c.totpSecret == a.totpSecret
                && c.others == a.others
                && (c.autoRefresh == a.autoRefresh || (a.autoRefresh == 0 && c.autoRefresh == 5))
                && cfg.allowedRoots[..] == archive.allowedRoots && cfg.hashes[..] == archive.hashes
                && cfg.passkeys[..] == archive.passkeys && cfg.ipAllowlist[..] == archive.ipAllowlist
                && c.sessionSecret == old(cfg.settings.sessionSecret) && c.local == old(cfg.settings.local)
      ensures !reply.Accepted? ==> cfg == old(cfg)
    {
      var restored := archive.settings;
      restored := restored.(local := cfg.settings.local);
      restored := restored.(sessionSecret := cfg.settings.sessionSecret);
      if restored.autoRefresh == 0 {
        restored := restored.(autoRefresh := DEFAULT_REFRESH);
      }
      var roots := FromSeq(archive.allowedRoots);
      var hashes := FromSeq(archive.hashes);
      var passkeys := FromSeq(archive.passkeys);
      var allowlist := FromSeq(archive.ipAllowlist);
      var updated := new Config(restored, roots, hashes, passkeys, allowlist);
      var saved := Save(updated, saves);
      if !saved {
        return Unsaved;
      }
      cfg := updated;
      return Accepted(false);
    }
  }
}
