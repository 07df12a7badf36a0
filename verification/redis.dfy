/**
 * The Redis store as the service uses it: each key holds a hash (field name to text),
 * a separate map holds the keys' time-to-live in seconds, and the commands the service
 * sends (EXISTS, HMSET, EXPIRE, HGETALL, HINCRBY) change or read them.
 * Also how the Redis client flattens a Paste into a hash and scans it back.
 */
module Redis {
  import opened Wrappers
  import Strconv
  import opened Pastes

  /** LLONG_MAX / 1000: the largest number of seconds EXPIRE turns into milliseconds. */
  const MaxExpireSeconds: int := 9223372036854775

  /** EXPIRE accepts a time exactly when it is within LLONG_MIN / 1000 .. LLONG_MAX / 1000 seconds. */
  predicate ExpireInRange(secs: int) {
    -MaxExpireSeconds <= secs <= MaxExpireSeconds
  }

  /** The fields of one Redis hash. */
  type Hash = map<string, string>

  /**
   * redis.Args{}.AddFlat(&p): the exported fields of Paste that are not tagged `redis:"-"`,
   * by field name, integers in decimal.
   */
  function Flatten(p: Paste): (h: Hash)
    ensures h.Keys == {"Url", "Title", "Body", "Syntax", "Mime", "Size", "Clicks", "Expiration", "CreatedOn"}
  {
    map[
      "Url" := p.url,
      "Title" := p.title,
      "Body" := p.body,
      "Syntax" := p.syntax,
      "Mime" := p.mime,
      "Size" := Strconv.FormatInt(p.size),
      "Clicks" := Strconv.FormatInt(p.clicks),
      "Expiration" := Strconv.FormatInt(p.expiration),
      "CreatedOn" := Strconv.FormatInt(p.createdOn)]
  }

  /** A text field of a scanned hash: the stored text, or "" when absent. */
  function TextField(h: Hash, name: string): string {
    if name in h then h[name] else ""
  }

  /** An integer field of a scanned hash: its decimal value, or 0 when absent or malformed. */
  function IntField(h: Hash, name: string): int {
    if name in h then Strconv.ParseIntOrZero(h[name]) else 0
  }

  /** redis.ScanStruct(reply, &p) into a zero Paste: each known field read on its own. */
  function Scan(h: Hash): (p: Paste)
    ensures p.expirationFormatted == None
  {
    Paste(
      url := TextField(h, "Url"),
      title := TextField(h, "Title"),
      body := TextField(h, "Body"),
      syntax := TextField(h, "Syntax"),
      mime := TextField(h, "Mime"),
      size := IntField(h, "Size"),
      clicks := IntField(h, "Clicks"),
      expiration := IntField(h, "Expiration"),
      createdOn := IntField(h, "CreatedOn"),
      expirationFormatted := None)
  }

  /** Scanning a flattened paste gives the paste back, less its unstored countdown. */
  lemma ScanFlatten(p: Paste)
    ensures Scan(Flatten(p)) == p.(expirationFormatted := None)
  {
    var h := Flatten(p);
    IntFieldFormat(h, "Size", p.size);
    IntFieldFormat(h, "Clicks", p.clicks);
    IntFieldFormat(h, "Expiration", p.expiration);
    IntFieldFormat(h, "CreatedOn", p.createdOn);
  }

  /** An integer field written in decimal scans back as that integer. */
  lemma IntFieldFormat(h: Hash, name: string, n: int)
    requires name in h && h[name] == Strconv.FormatInt(n)
    ensures IntField(h, name) == n
  {
    Strconv.FormatParseRoundTrip(n);
  }

  /** Writing a paste's fields over an older hash hides every older field the scan reads. */
  lemma ScanOverwrite(older: Hash, p: Paste)
    ensures Scan(older + Flatten(p)) == p.(expirationFormatted := None)
  {
    ScanFlatten(p);
    var h := older + Flatten(p);
    assert forall f :: f in Flatten(p) ==> h[f] == Flatten(p)[f];
  }

  /**
   * How Redis reads a hash field as an integer (HINCRBY): only the canonical decimal
   * text, with no sign "+" and no leading zero.
   */
  function StoredInt(v: string): (r: Option<int>)
    ensures r.Some? ==> Strconv.FormatInt(r.value) == v && Strconv.ParseInt(v) == r
  {
    var n := Strconv.ParseInt(v);
    if n.Some? && Strconv.FormatInt(n.value) == v then n else None
  }

  /** Every integer the client writes, Redis reads back as that integer. */
  lemma StoredIntFormat(n: int)
    ensures StoredInt(Strconv.FormatInt(n)) == Some(n)
  {
    Strconv.FormatParseRoundTrip(n);
  }

  /** The contents of the store: hashes by key, and time-to-live in seconds by key. */
  datatype Db = Db(hashes: map<string, Hash>, ttls: map<string, int>) {

    /** Only keys that exist carry a time-to-live. */
    predicate Valid() {
      ttls.Keys <= hashes.Keys
    }

    /** The hash at key, or the empty hash when the key does not exist. */
    function HashAt(key: string): Hash {
      if key in hashes then hashes[key] else map[]
    }

    /** HMSET key fields: the given fields are set, the key's other fields and its time-to-live stay. */
    function HSet(key: string, fields: Hash): (r: Db)
      ensures r.ttls == ttls && key in r.hashes
      ensures forall f :: f in fields ==> f in r.hashes[key] && r.hashes[key][f] == fields[f]
      ensures forall f :: f !in fields ==> (f in r.hashes[key] <==> f in HashAt(key))
      ensures forall f :: f !in fields && f in HashAt(key) ==> r.hashes[key][f] == HashAt(key)[f]
      ensures forall k :: k != key ==> (k in r.hashes <==> k in hashes)
      ensures forall k :: k != key && k in hashes ==> r.hashes[k] == hashes[k]
    {
      Db(hashes[key := HashAt(key) + fields], ttls)
    }

    /**
     * EXPIRE key secs: a time whose milliseconds would overflow 64 bits is refused and changes
     * nothing; no effect on a missing key; a positive time-to-live is set; a time-to-live of
     * zero or less deletes the key at once.
     */
    function Expire(key: string, secs: int): (r: Db)
      ensures !ExpireInRange(secs) ==> r == this
      ensures key !in hashes ==> r == this
      ensures key in hashes && ExpireInRange(secs) && secs > 0 ==> r.hashes == hashes && r.ttls == ttls[key := secs]
      ensures key in hashes && ExpireInRange(secs) && secs <= 0 ==> key !in r.hashes && key !in r.ttls
      ensures forall k :: k != key ==> (k in r.hashes <==> k in hashes) && (k in r.ttls <==> k in ttls)
      ensures forall k :: k != key && k in hashes ==> r.hashes[k] == hashes[k]
      ensures forall k :: k != key && k in ttls ==> r.ttls[k] == ttls[k]
    {
      if !ExpireInRange(secs) || key !in hashes then this
      else if secs > 0 then this.(ttls := ttls[key := secs])
      else Db(hashes - {key}, ttls - {key})
    }

    /**
     * HINCRBY key field delta: a missing field counts as 0; a field that is not an integer
     * is an error and changes nothing; a missing key becomes a new hash without a time-to-live.
     */
    function HIncrBy(key: string, field: string, delta: int): (r: Db)
      ensures r.ttls == ttls
      ensures field in HashAt(key) && StoredInt(HashAt(key)[field]).None? ==> r == this
      ensures field !in HashAt(key) ==> r.hashes == hashes[key := HashAt(key)[field := Strconv.FormatInt(delta)]]
      ensures field in HashAt(key) && StoredInt(HashAt(key)[field]).Some? ==>
        r.hashes == hashes[key := HashAt(key)[field := Strconv.FormatInt(StoredInt(HashAt(key)[field]).value + delta)]]
    {
      var h := HashAt(key);
      var current := if field in h then StoredInt(h[field]) else Some(0);
      if current.None? then this
      else this.(hashes := hashes[key := h[field := Strconv.FormatInt(current.value + delta)]])
    }
  }

  /** No command the service sends breaks the time-to-live bookkeeping. */
  lemma CommandsKeepValid(db: Db, key: string, fields: Hash, secs: int, field: string, delta: int)
    requires db.Valid()
    ensures db.HSet(key, fields).Valid()
    ensures db.Expire(key, secs).Valid()
    ensures db.HIncrBy(key, field, delta).Valid()
  {
  }

  /**
   * The store the service talks to. Each command takes a flag saying whether the store
   * answers it with an error (a dropped connection, say); a failed command changes nothing.
   */
  class Store {
    var hashes: map<string, Hash>
    var ttls: map<string, int>

    function State(): Db
      reads this
    {
      Db(hashes, ttls)
    }

    constructor (contents: Db)
      requires contents.Valid()
      ensures State() == contents
    {
      hashes := contents.hashes;
      ttls := contents.ttls;
    }

    /** redis.Int(c.Do("EXISTS", key)): 1 or 0, and on an error the pair (0, error). */
    method Exists(key: string, fails: bool) returns (reply: int, err: bool)
      ensures err == fails
      ensures err ==> reply == 0
      ensures !err ==> (reply == 1 <==> key in hashes) && (reply == 0 <==> key !in hashes)
    {
      if fails {
        reply, err := 0, true;
      } else {
        reply := if key in hashes then 1 else 0;
        err := false;
      }
    }

    /** redis.Values(c.Do("HGETALL", key)): the key's fields (none for a missing key), or an error. */
    method HGetAll(key: string, fails: bool) returns (reply: Hash, err: bool)
      ensures err == fails
      ensures err ==> reply == map[]
      ensures !err ==> reply == State().HashAt(key)
    {
      if fails {
        reply, err := map[], true;
      } else {
        reply := if key in hashes then hashes[key] else map[];
        err := false;
      }
    }

    method HMSet(key: string, fields: Hash, fails: bool) returns (err: bool)
      modifies this
      ensures err == fails
      ensures State() == if fails then old(State()) else old(State()).HSet(key, fields)
    {
      err := fails;
      if !fails {
        hashes := hashes[key := State().HashAt(key) + fields];
      }
    }

    method Expire(key: string, secs: int, fails: bool) returns (err: bool)
      modifies this
      ensures err == (fails || !ExpireInRange(secs))
      ensures State() == if fails then old(State()) else old(State()).Expire(key, secs)
    {
      err := fails || !ExpireInRange(secs);
      if !err && key in hashes {
        if secs > 0 {
          ttls := ttls[key := secs];
        } else {
          hashes := hashes - {key};
          ttls := ttls - {key};
        }
      }
    }

    method HIncrBy(key: string, field: string, delta: int, fails: bool) returns (err: bool)
      modifies this
      ensures State() == if fails then old(State()) else old(State()).HIncrBy(key, field, delta)
      ensures err == (fails || (field in old(State().HashAt(key)) && StoredInt(old(State().HashAt(key))[field]).None?))
    {
      err := fails;
      if !fails {
        var h := State().HashAt(key);
        var current := if field in h then StoredInt(h[field]) else Some(0);
        if current.Some? {
          StoredIntFormat(current.value + delta);
          hashes := hashes[key := h[field := Strconv.FormatInt(current.value + delta)]];
        } else {
          err := true;
        }
      }
    }
  }
}
