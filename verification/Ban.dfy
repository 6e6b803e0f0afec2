/**
 * The ban table of src/ban.rs. BanManager has one method for each section of the source that
 * runs under the lock; BanProtocol lets those sections of any number of calls interleave, with
 * the clock moving between any two of them.
 */
module Ban {
  import opened Prelude

  datatype Violation = Timeout | Protocol | Waf | RateLimit

  /** Ban durations in seconds; zero switches a kind of ban off. */
  datatype BanConfig = BanConfig(banTimeout: nat, banProtocol: nat, banWaf: nat, banRateLimit: nat) {
    function Seconds(v: Violation): nat {
      match v
      case Timeout => banTimeout
      case Protocol => banProtocol
      case Waf => banWaf
      case RateLimit => banRateLimit
    }
  }

  /** The instant until which each address is banned. */
  type Table = map<IpAddr, Instant>

  /** The address is listed and not expired at `now`; the instant of expiry itself still counts. */
  predicate Protects(t: Table, ip: IpAddr, now: Instant) {
    ip in t && now <= t[ip]
  }

  /** What the read phase of a check decides; None sends it on to the write phase. */
  function ReadVerdict(t: Table, ip: IpAddr, now: Instant): Option<bool> {
    if Protects(t, ip, now) then Some(true) else if ip !in t then Some(false) else None
  }

  /** The table after the write phase of a check: an entry found expired is removed. */
  function Rechecked(t: Table, ip: IpAddr, now: Instant): Table {
    if Protects(t, ip, now) then t else t - {ip}
  }

  /** The table after a cleanup pass, which keeps only what expires strictly later. */
  function Retained(t: Table, now: Instant): Table {
    map ip | ip in t && t[ip] > now :: t[ip]
  }

  /** The table after a punishment of so many seconds; zero seconds ban nobody. */
  function Punished(t: Table, ip: IpAddr, seconds: nat, now: Instant): Table {
    if seconds > 0 then t[ip := now + seconds * NANOS] else t
  }

  class BanManager {
    var bannedIps: Table

    constructor ()
      ensures bannedIps == map[]
    {
      bannedIps := map[];
    }

    method CheckRead(ip: IpAddr, now: Instant) returns (verdict: Option<bool>)
      ensures verdict == ReadVerdict(bannedIps, ip, now)
    {
      if ip in bannedIps {
        if now <= bannedIps[ip] {
          return Some(true);
        }
      } else {
        return Some(false);
      }
      verdict := None;
    }

    method CheckWrite(ip: IpAddr, now: Instant) returns (verdict: bool)
      modifies this
      ensures verdict == Protects(old(bannedIps), ip, now)
      ensures bannedIps == Rechecked(old(bannedIps), ip, now)
    {
      if ip in bannedIps {
        if now > bannedIps[ip] {
          bannedIps := bannedIps - {ip};
          verdict := false;
        } else {
          verdict := true;
        }
      } else {
        assert bannedIps == bannedIps - {ip};
        verdict := false;
      }
    }

    /** A check during which no other call gets at the lock. */
    method Check(ip: IpAddr, now: Instant) returns (verdict: bool)
      modifies this
      ensures verdict == Protects(old(bannedIps), ip, now)
      ensures bannedIps == Rechecked(old(bannedIps), ip, now)
    {
      var first := CheckRead(ip, now);
      if first.Some? {
        assert !first.value ==> bannedIps == bannedIps - {ip};
        verdict := first.value;
      } else {
        verdict := CheckWrite(ip, now);
      }
    }

    method Insert(ip: IpAddr, expireAt: Instant)
      modifies this
      ensures bannedIps == old(bannedIps)[ip := expireAt]
    {
      bannedIps := bannedIps[ip := expireAt];
    }

    /** A punishment during which no other call gets at the lock. */
    method Punish(ip: IpAddr, v: Violation, config: BanConfig, now: Instant)
      modifies this
      ensures v == Timeout ==> bannedIps == Punished(old(bannedIps), ip, config.banTimeout, now)
      ensures v == Protocol ==> bannedIps == Punished(old(bannedIps), ip, config.banProtocol, now)
      ensures v == Waf ==> bannedIps == Punished(old(bannedIps), ip, config.banWaf, now)
      ensures v == Violation.RateLimit ==> bannedIps == Punished(old(bannedIps), ip, config.banRateLimit, now)
    {
      var seconds := config.Seconds(v);
      if seconds > 0 {
        Insert(ip, now + seconds * NANOS);
      }
    }

    method Cleanup(now: Instant)
      modifies this
      ensures bannedIps == Retained(old(bannedIps), now)
    {
      bannedIps := map ip | ip in bannedIps && bannedIps[ip] > now :: bannedIps[ip];
    }
  }

  /** A new ban leaves an address at least as protected as it was if and only if it does not end earlier. */
  lemma InsertKeepsProtectionIff(t: Table, ip: IpAddr, expireAt: Instant)
    ensures (forall now :: Protects(t, ip, now) ==> Protects(t[ip := expireAt], ip, now))
            <==> (ip in t ==> t[ip] <= expireAt)
  {
    if ip in t && t[ip] > expireAt {
      assert Protects(t, ip, t[ip]) && !Protects(t[ip := expireAt], ip, t[ip]);
    }
  }
}
