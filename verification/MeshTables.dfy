/**
 The mesh relay's three tables and the effect of each call on them, as
 functions on values.  A `Slot` carries, besides its columns, the `serial` of
 its insertion; no operation reads it, it only names the slot in the histories
 of `MeshRelay`.
 */
module MeshTables {
  import opened Collections

  const SLOT_TTL_SECS: int := 7 * 24 * 3600
  const MAX_SLOTS: nat := 100
  const TS_SKEW_SECS: int := 300
  const UIN_ATTEMPTS: nat := 64

  type Uin = string
  type Key = string
  type Sub = string

  datatype MeshError =
    | BadInput | UnknownUin | BadSignature | BadTimestamp | InboxFull
    | Conflict | SubscriptionRejected | Internal

  datatype Result<+T> = Ok(value: T) | Err(error: MeshError)

  datatype Identity = Identity(sub: Sub, name: string, createdAt: int)
  datatype Device = Device(uin: Uin, signing: Key, lastSeen: int, createdAt: int)
  datatype Slot = Slot(serial: nat, rowid: nat, uin: Uin, device: Key, from: Uin,
                       ciphertext: string, expiresAt: int)

  /** `identities` by UIN, `devices` by noise key, `slots` in rowid order. */
  datatype Tables = Tables(identities: map<Uin, Identity>, devices: map<Key, Device>,
                           slots: seq<Slot>, serial: nat)

  datatype SlotView = SlotView(from: Uin, ciphertext: string)
  datatype Envelope = Envelope(device: string, ciphertext: string)

  /** `id` and `secret` are None when the text is not a uuid; `allows` is the
      subscription source's answer, None when it failed. */
  datatype RegisterRequest = RegisterRequest(id: Option<Sub>, secret: Option<Sub>,
                                             allows: Option<bool>, noise: string,
                                             signing: string, name: Option<string>)

  const EMPTY := Tables(map[], map[], [], 0)

  // ---- Input checks ----

  predicate IsSpace(c: char) { c == ' ' || '\t' <= c <= '\r' }

  function TrimLeft(s: string): string
  {
    if s != [] && IsSpace(s[0]) then TrimLeft(s[1..]) else s
  }

  function TrimRight(s: string): string
  {
    if s != [] && IsSpace(s[|s| - 1]) then TrimRight(s[..|s| - 1]) else s
  }

  function LowerChar(c: char): char
  {
    if 'A' <= c <= 'Z' then (c as int + 32) as char else c
  }

  predicate IsHex(c: char) { '0' <= c <= '9' || 'a' <= c <= 'f' }

  /** Trim, lower-case and require the hex text of 32 bytes. */
  function NormalizePubkey(raw: string): Result<Key>
  {
    var trimmed := TrimRight(TrimLeft(raw));
    var lower := seq(|trimmed|, i requires 0 <= i < |trimmed| => LowerChar(trimmed[i]));
    if |lower| == 64 && forall i :: 0 <= i < |lower| ==> IsHex(lower[i])
    then Ok(lower) else Err(BadInput)
  }

  predicate IsControl(c: char) { c < ' ' || '\U{7f}' <= c <= '\U{9f}' }

  predicate NameOk(name: string)
  {
    |name| <= 32 && forall i :: 0 <= i < |name| ==> !IsControl(name[i])
  }

  predicate TsOk(ts: int, now: int) { -TS_SKEW_SECS <= now - ts <= TS_SKEW_SECS }

  function ParseSubscription(id: Option<Sub>, secret: Option<Sub>): Result<Sub>
  {
    if id.None? then Err(BadInput)
    else if secret.None? || id != secret then Err(SubscriptionRejected)
    else Ok(id.value)
  }

  // ---- UIN issuing ----

  function Pow10(n: nat): (p: nat)
    ensures p >= 1
  {
    if n == 0 then 1 else 10 * Pow10(n - 1)
  }

  function Digit(d: nat): char
    requires d < 10
  {
    ('0' as int + d) as char
  }

  function Decimal(n: nat): (s: string)
    ensures s != []
  {
    if n < 10 then [Digit(n)] else Decimal(n / 10) + [Digit(n % 10)]
  }

  /** A positive number has `w` decimal digits exactly when it lies in the
      range that a UIN of width `w` is drawn from. */
  lemma {:induction false} DecimalLength(n: nat, w: nat)
    requires 1 <= n && 1 <= w
    ensures |Decimal(n)| == w <==> Pow10(w - 1) <= n < Pow10(w)
  {
    assert Pow10(w) == 10 * Pow10(w - 1);
    if w > 1 {
      assert Pow10(w - 1) == 10 * Pow10(w - 2);
      if n >= 10 {
        DecimalLength(n / 10, w - 1);
      }
    }
  }

  function ValueOf(s: string): int
  {
    if s == [] then 0 else 10 * ValueOf(s[..|s| - 1]) + (s[|s| - 1] as int - '0' as int)
  }

  /** The decimal text of a number reads as that number. */
  lemma {:induction false} DecimalReads(n: nat)
    ensures ValueOf(Decimal(n)) == n && forall i :: 0 <= i < |Decimal(n)| ==> '0' <= Decimal(n)[i] <= '9'
  {
    if n < 10 {
      assert Decimal(n)[..0] == [];
    } else {
      DecimalReads(n / 10);
      assert Decimal(n)[..|Decimal(n)| - 1] == Decimal(n / 10);
    }
  }

  function Occupancy(identities: map<Uin, Identity>, w: nat): nat
  {
    |set u | u in identities && |u| == w|
  }

  function Space(w: nat): nat
    requires 1 <= w
  {
    9 * Pow10(w - 1)
  }

  function ChooseWidth(count: nat, w: nat): nat
    requires 1 <= w
  {
    if w >= 10 then w else if count * 10 > Space(w) * 8 then w + 1 else w
  }

  /** Width `w` is crowded when more than 80% of its numbers are taken. */
  predicate Crowded(identities: map<Uin, Identity>, w: nat)
    requires 1 <= w
  {
    Occupancy(identities, w) * 10 > Space(w) * 8
  }

  function WidthFrom(identities: map<Uin, Identity>, w: nat): (r: nat)
    requires 5 <= w <= 10
    ensures w <= r
    decreases 10 - w
  {
    var next := ChooseWidth(Occupancy(identities, w), w);
    if next == w then w else WidthFrom(identities, next)
  }

  /** The width is the least one from 5 that is not crowded, capped at 10. */
  lemma {:induction false} WidthIsLeastUncrowded(identities: map<Uin, Identity>, w: nat)
    requires 5 <= w <= 10
    ensures var r := WidthFrom(identities, w);
            && w <= r <= 10
            && (r == 10 || !Crowded(identities, r))
            && forall v :: w <= v < r ==> Crowded(identities, v)
    decreases 10 - w
  {
    if ChooseWidth(Occupancy(identities, w), w) != w {
      WidthIsLeastUncrowded(identities, w + 1);
    }
  }

  /** The candidate that random draw `d` stands for at width `w`. */
  function Candidate(w: nat, d: nat): Uin
    requires 1 <= w
  {
    Decimal(Pow10(w - 1) + d % Space(w))
  }

  /** The random draws of one call: every attempt takes one. */
  type Draws = s: seq<nat> | |s| == UIN_ATTEMPTS witness seq(UIN_ATTEMPTS, _ => 0)

  function FirstFree(identities: map<Uin, Identity>, w: nat, draws: seq<nat>): Result<Uin>
    requires 1 <= w
  {
    if draws == [] then Err(Internal)
    else if Candidate(w, draws[0]) !in identities then Ok(Candidate(w, draws[0]))
    else FirstFree(identities, w, draws[1..])
  }

  function IssueUin(identities: map<Uin, Identity>, draws: Draws): Result<Uin>
  {
    FirstFree(identities, WidthFrom(identities, 5), draws)
  }

  lemma {:induction false} FirstFreeMeaning(identities: map<Uin, Identity>, w: nat, draws: seq<nat>)
    requires 1 <= w
    ensures match FirstFree(identities, w, draws)
            case Ok(u) =>
              && u !in identities && |u| == w
              && exists i :: 0 <= i < |draws| && u == Candidate(w, draws[i]) &&
                             forall j :: 0 <= j < i ==> Candidate(w, draws[j]) in identities
            case Err(e) => e == Internal && forall i :: 0 <= i < |draws| ==> Candidate(w, draws[i]) in identities
  {
    if draws != [] {
      if Candidate(w, draws[0]) !in identities {
        var n := Pow10(w - 1) + draws[0] % Space(w);
        assert Pow10(w) == 10 * Pow10(w - 1);
        DecimalLength(n, w);
      } else {
        FirstFreeMeaning(identities, w, draws[1..]);
        var r := FirstFree(identities, w, draws[1..]);
        if r.Ok? {
          var i :| 0 <= i < |draws[1..]| && r.value == Candidate(w, draws[1..][i])
                   && forall j :: 0 <= j < i ==> Candidate(w, draws[1..][j]) in identities;
          assert r.value == Candidate(w, draws[i + 1]);
          forall j | 0 <= j < i + 1 ensures Candidate(w, draws[j]) in identities {
            assert j > 0 ==> draws[j] == draws[1..][j - 1];
          }
        } else {
          forall i | 0 <= i < |draws| ensures Candidate(w, draws[i]) in identities {
            if i > 0 {
              assert draws[i] == draws[1..][i - 1];
            }
          }
        }
      }
    }
  }

  /** An issued UIN is unused and has the least uncrowded width; issuing fails
      only when all 64 draws hit a taken number of that width. */
  lemma {:induction false} IssuedUin(identities: map<Uin, Identity>, draws: Draws)
    ensures var w := WidthFrom(identities, 5);
            && 5 <= w <= 10
            && (w == 10 || !Crowded(identities, w))
            && (forall v :: 5 <= v < w ==> Crowded(identities, v))
            && match IssueUin(identities, draws)
               case Ok(u) => u !in identities && |u| == w
               case Err(e) => e == Internal && forall i :: 0 <= i < |draws| ==> Candidate(w, draws[i]) in identities
  {
    WidthIsLeastUncrowded(identities, 5);
    FirstFreeMeaning(identities, WidthFrom(identities, 5), draws);
  }

  // ---- Registration ----

  function Rename(identities: map<Uin, Identity>, uin: Uin, name: Option<string>): map<Uin, Identity>
  {
    if name.Some? && uin in identities
    then identities[uin := identities[uin].(name := name.value)]
    else identities
  }

  /** The UINs bound to a subscription (at most one, by the unique index). */
  function UinsOf(identities: map<Uin, Identity>, sub: Sub): set<Uin>
  {
    set u | u in identities && identities[u].sub == sub
  }

  function TheUin(identities: map<Uin, Identity>, sub: Sub): (u: Uin)
    requires |UinsOf(identities, sub)| == 1
    ensures UinsOf(identities, sub) == {u}
  {
    var s := UinsOf(identities, sub);
    SingletonUnique(s);
    var u :| u in s;
    u
  }

  lemma SingletonUnique<T>(s: set<T>)
    requires |s| == 1
    ensures exists x :: x in s
    ensures forall x :: x in s ==> s == {x}
  {
    var x :| x in s;
    assert |s - {x}| == 0;
    assert s == {x} + (s - {x});
  }

  /** The part of `register` that runs on the tables. */
  function Bind(t: Tables, sub: Sub, noise: Key, signing: Key, name: Option<string>,
                draws: Draws, now: int): (r: (Tables, Result<Uin>))
  {
    if noise in t.devices && t.devices[noise].uin in t.identities then
      var uin := t.devices[noise].uin;
      if t.identities[uin].sub != sub then (t, Err(Conflict))
      else (t.(devices := t.devices[noise := t.devices[noise].(signing := signing, lastSeen := now)],
               identities := Rename(t.identities, uin, name)), Ok(uin))
    else if |UinsOf(t.identities, sub)| == 1 then
      var uin := TheUin(t.identities, sub);
      (t.(devices := t.devices[noise := Device(uin, signing, now, now)],
          identities := Rename(t.identities, uin, name)), Ok(uin))
    else
      match IssueUin(t.identities, draws)
      case Err(e) => (t, Err(e))
      case Ok(uin) =>
        var stored := if name.Some? then name.value else "";
        (t.(identities := t.identities[uin := Identity(sub, stored, now)],
            devices := t.devices[noise := Device(uin, signing, now, now)]), Ok(uin))
  }

  datatype Registration = Registration(sub: Sub, noise: Key, signing: Key)

  /** The checks in front of `register`, before any table is read. */
  function CheckRequest(req: RegisterRequest): Result<Registration>
  {
    var sub := ParseSubscription(req.id, req.secret);
    var noise := NormalizePubkey(req.noise);
    var signing := NormalizePubkey(req.signing);
    if sub.Err? then Err(sub.error)
    else if req.allows.None? then Err(Internal)
    else if !req.allows.value then Err(SubscriptionRejected)
    else if noise.Err? then Err(noise.error)
    else if signing.Err? then Err(signing.error)
    else if req.name.Some? && !NameOk(req.name.value) then Err(BadInput)
    else Ok(Registration(sub.value, noise.value, signing.value))
  }

  function Register(t: Tables, req: RegisterRequest, draws: Draws, now: int): (Tables, Result<Uin>)
  {
    match CheckRequest(req)
    case Err(e) => (t, Err(e))
    case Ok(c) => Bind(t, c.sub, c.noise, c.signing, req.name, draws, now)
  }

  // ---- Authentication ----

  function DevicesOf(t: Tables, uin: Uin): set<Key>
  {
    set k | k in t.devices && t.devices[k].uin == uin
  }

  /** `d` is a possible outcome of matching a request, which verifies under
      exactly the signing keys in `valid`, against the devices of `uin`. */
  predicate Matches(t: Tables, uin: Uin, valid: set<Key>, d: Option<Key>)
  {
    match d
    case Some(k) => k in DevicesOf(t, uin) && t.devices[k].signing in valid
    case None => forall k :: k in DevicesOf(t, uin) ==> t.devices[k].signing !in valid
  }

  /** The checks in front of `pull` and `poll`. */
  function Authenticate(t: Tables, uin: Uin, ts: int, d: Option<Key>, now: int): Result<Key>
  {
    if !TsOk(ts, now) then Err(BadTimestamp)
    else if uin !in t.identities then Err(UnknownUin)
    else if d.None? then Err(BadSignature)
    else Ok(d.value)
  }

  function Touch(t: Tables, device: Key, now: int): Tables
  {
    if device in t.devices
    then t.(devices := t.devices[device := t.devices[device].(lastSeen := now)])
    else t
  }

  // ---- Slots ----

  predicate Addressed(s: Slot, uin: Uin, device: Key)
  {
    s.uin == uin && s.device == device
  }

  function Live(uin: Uin, device: Key, now: int): Slot -> bool
  {
    s => Addressed(s, uin, device) && s.expiresAt > now
  }

  function NotLive(uin: Uin, device: Key, now: int): Slot -> bool
  {
    s => !(Addressed(s, uin, device) && s.expiresAt > now)
  }

  function Expired(now: int): Slot -> bool { (s: Slot) => s.expiresAt <= now }

  function Unexpired(now: int): Slot -> bool { (s: Slot) => s.expiresAt > now }

  function LiveSlots(t: Tables, uin: Uin, device: Key, now: int): seq<Slot>
  {
    Filter(t.slots, Live(uin, device, now))
  }

  function NextRowid(slots: seq<Slot>): nat
  {
    if slots == [] then 1 else slots[|slots| - 1].rowid + 1
  }

  function NewSlot(t: Tables, uin: Uin, device: Key, from: Uin, ciphertext: string, now: int): Slot
  {
    Slot(t.serial, NextRowid(t.slots), uin, device, from, ciphertext, now + SLOT_TTL_SECS)
  }

  function InsertSlot(t: Tables, uin: Uin, device: Key, from: Uin, ciphertext: string, now: int): Tables
  {
    t.(slots := t.slots + [NewSlot(t, uin, device, from, ciphertext, now)], serial := t.serial + 1)
  }

  /** What `send` checks before storing one envelope; the normalized key when it may be stored. */
  function Admit(t: Tables, to: Uin, env: Envelope, now: int): Result<Key>
  {
    var pk := NormalizePubkey(env.device);
    if pk.Err? then Err(pk.error)
    else if env.ciphertext == "" then Err(BadInput)
    else if pk.value !in DevicesOf(t, to) then Err(BadInput)
    else if |LiveSlots(t, to, pk.value, now)| >= MAX_SLOTS then Err(InboxFull)
    else Ok(pk.value)
  }

  /** The envelope loop of `send`: it stops at the first refused envelope and
      keeps the ones already stored.  The last component lists the devices woken. */
  function StoreAll(t: Tables, from: Uin, to: Uin, envs: seq<Envelope>, now: int)
    : (r: (Tables, Result<()>, seq<Key>))
    decreases |envs|
  {
    if envs == [] then (t, Ok(()), [])
    else
      match Admit(t, to, envs[0], now)
      case Err(e) => (t, Err(e), [])
      case Ok(pk) =>
        var rest := StoreAll(InsertSlot(t, to, pk, from, envs[0].ciphertext, now), from, to, envs[1..], now);
        (rest.0, rest.1, [pk] + rest.2)
  }

  function Send(t: Tables, from: Uin, to: Uin, envs: seq<Envelope>, ts: int, sender: Option<Key>, now: int)
    : (Tables, Result<()>, seq<Key>)
  {
    if envs == [] then (t, Err(BadInput), [])
    else if !TsOk(ts, now) then (t, Err(BadTimestamp), [])
    else if from !in t.identities || to !in t.identities then (t, Err(UnknownUin), [])
    else if sender.None? then (t, Err(BadSignature), [])
    else
      var r := StoreAll(t, from, to, envs, now);
      if r.1.Err? then r else (Touch(r.0, sender.value, now), r.1, r.2)
  }

  /** `take_slots`: remove what is live for the device. */
  function Take(t: Tables, uin: Uin, device: Key, now: int): Tables
  {
    t.(slots := Filter(t.slots, NotLive(uin, device, now)))
  }

  function Views(slots: seq<Slot>): seq<SlotView>
  {
    seq(|slots|, i requires 0 <= i < |slots| => SlotView(slots[i].from, slots[i].ciphertext))
  }

  function Pull(t: Tables, uin: Uin, ts: int, d: Option<Key>, now: int): (Tables, Result<seq<SlotView>>)
  {
    match Authenticate(t, uin, ts, d, now)
    case Err(e) => (t, Err(e))
    case Ok(device) =>
      (Touch(Take(t, uin, device, now), device, now), Ok(Views(LiveSlots(t, uin, device, now))))
  }

  function Gc(t: Tables, now: int): Tables
  {
    t.(slots := Filter(t.slots, Unexpired(now)))
  }
}
