/**
 * The paste lifecycle: drawing a free short id, building a paste from a submitted form,
 * saving it to the store and reading it back with a click counted.
 *
 * Randomness is a chooser `draw`: draw(k) is what the k-th call of rand.Intn(62) returns
 * during the operation. Store failures are given as flags or, for the repeated EXISTS check,
 * as `existsFails(k)`: whether the check made after attempt k answers with an error.
 */
module Pastebin {
  import opened Wrappers
  import Strconv
  import opened Pastes
  import opened ShortIds
  import opened Redis

  // ---------------------------------------------------------------------------------------
  // Short ids
  // ---------------------------------------------------------------------------------------

  /** randomString(n): n letters, the i-th being Letters[draw(from + i)]. */
  method RandomString(n: nat, draw: nat -> LetterIndex, from: nat) returns (s: string)
    ensures s == Drawn(draw, from, n)
    ensures |s| == n && forall i :: 0 <= i < n ==> s[i] in Letters
  {
    var b := new char[n];
    for i := 0 to n
      invariant forall j :: 0 <= j < i ==> b[j] == Letters[draw(from + j)]
    {
      b[i] := Letters[draw(from + i)];
    }
    s := b[..];
  }

  /** Attempt k ends the retry loop: its EXISTS check errs, or finds no paste under the id drawn. */
  predicate Settles(hashes: map<string, Hash>, draw: nat -> LetterIndex, existsFails: nat -> bool, attempt: nat) {
    existsFails(attempt) || Key(Candidate(draw, attempt)) !in hashes
  }

  /** Some attempt ends the loop (with 62^4 ids and a finite store, random draws do this almost surely). */
  ghost predicate EventuallySettles(hashes: map<string, Hash>, draw: nat -> LetterIndex, existsFails: nat -> bool) {
    exists k: nat :: 1 <= k && Settles(hashes, draw, existsFails, k)
  }

  /**
   * The loop of generateUrl: a first id is drawn and thrown away, then ids are drawn until
   * EXISTS paste:<id> answers 0. An error answer also reads as 0 and ends the loop; the
   * error is returned beside the id. The store is only read.
   */
  method DrawUntilFree(store: Store, draw: nat -> LetterIndex, existsFails: nat -> bool)
      returns (url: string, err: bool, ghost attempts: nat)
    requires EventuallySettles(store.hashes, draw, existsFails)
    ensures 1 <= attempts && url == Candidate(draw, attempts)
    ensures forall j :: 1 <= j < attempts ==> !Settles(store.hashes, draw, existsFails, j)
    ensures err == existsFails(attempts)
    ensures !err ==> Key(url) !in store.hashes
  {
    ghost var bound: nat :| 1 <= bound && Settles(store.hashes, draw, existsFails, bound);
    var attempt: nat := 0;
    url := RandomString(IdLength, draw, 0);
    var reply := 1;
    err := false;
    while reply != 0
      invariant attempt <= bound
      invariant url == Candidate(draw, attempt)
      invariant forall j :: 1 <= j < attempt ==> !Settles(store.hashes, draw, existsFails, j)
      invariant reply != 0 ==> !err && (1 <= attempt ==> !Settles(store.hashes, draw, existsFails, attempt))
      invariant reply == 0 ==> 1 <= attempt && Settles(store.hashes, draw, existsFails, attempt)
      invariant reply == 0 ==> err == existsFails(attempt)
      decreases bound - attempt
    {
      attempt := attempt + 1;
      url := RandomString(IdLength, draw, IdLength * attempt);
      // panicOnError(err): err is never set when the loop goes round again, so this check never fires
      assert !err;
      reply, err := store.Exists(Key(url), existsFails(attempt));
    }
    attempts := attempt;
  }

  /**
   * generateUrl as written: the id left by the loop, whatever the last EXISTS answered.
   * When that answer was an error, nothing says the id is free.
   */
  method GenerateUrlAsWritten(store: Store, draw: nat -> LetterIndex, existsFails: nat -> bool)
      returns (url: string, ghost attempts: nat)
    requires EventuallySettles(store.hashes, draw, existsFails)
    ensures |url| == IdLength && IsId(url)
    ensures 1 <= attempts && url == Candidate(draw, attempts)
    ensures forall j :: 1 <= j < attempts ==> !Settles(store.hashes, draw, existsFails, j)
    ensures !existsFails(attempts) ==> Key(url) !in store.hashes
  {
    var err;
    url, err, attempts := DrawUntilFree(store, draw, existsFails);
  }

  /** A store whose EXISTS check errs makes generateUrl as written hand out an id already in use. */
  method ErrorReadAsFree() returns (store: Store, url: string)
    ensures Key(url) in store.hashes
  {
    store := new Store(Db(map[Key("aaaa") := map["Url" := "aaaa"]], map[]));
    var draw: nat -> LetterIndex := k => 0;
    var fails: nat -> bool := k => true;
    assert Settles(store.hashes, draw, fails, 1);
    ghost var attempts;
    url, attempts := GenerateUrlAsWritten(store, draw, fails);
    LettersLayout();
    assert Letters[0] == 'a';
    assert Candidate(draw, attempts) == "aaaa";
  }

  /**
   * generateUrl with the store error reported: a 4-letter id under which the store
   * holds no paste, or StoreUnavailable when the last EXISTS check erred.
   */
  method GenerateUrl(store: Store, draw: nat -> LetterIndex, existsFails: nat -> bool)
      returns (r: Result<string, Error>, ghost attempts: nat)
    requires EventuallySettles(store.hashes, draw, existsFails)
    ensures 1 <= attempts && forall j :: 1 <= j < attempts ==> !Settles(store.hashes, draw, existsFails, j)
    ensures r.Success? <==> !existsFails(attempts)
    ensures r.Success? ==> r.value == Candidate(draw, attempts)
    ensures r.Success? ==> |r.value| == IdLength && IsId(r.value) && Key(r.value) !in store.hashes
    ensures r.Failure? ==> r.error == StoreUnavailable
  {
    var url, err;
    url, err, attempts := DrawUntilFree(store, draw, existsFails);
    if err {
      r := Failure(StoreUnavailable);
    } else {
      r := Success(url);
    }
  }

  // ---------------------------------------------------------------------------------------
  // Creating and saving
  // ---------------------------------------------------------------------------------------

  /**
   * createPaste: the title and body rules first, and only then an id from generateUrl
   * and the paste built around it. The store is not written.
   */
  method CreatePaste(store: Store, title: string, body: string, syntax: string, mime: string, expire: string,
                     now: int, draw: nat -> LetterIndex, existsFails: nat -> bool)
      returns (r: Result<Paste, Error>, ghost attempts: nat)
    requires Validate(title, body).None? ==> EventuallySettles(store.hashes, draw, existsFails)
    ensures Validate(title, body).Some? ==> r == Failure(Validate(title, body).value)
    ensures Validate(title, body).None? ==>
      1 <= attempts && forall j :: 1 <= j < attempts ==> !Settles(store.hashes, draw, existsFails, j)
    ensures Validate(title, body).None? ==> (r.Success? <==> !existsFails(attempts))
    ensures Validate(title, body).None? && r.Failure? ==> r.error == StoreUnavailable
    ensures r.Success? ==> r == BuildPaste(title, body, syntax, mime, expire, Candidate(draw, attempts), now)
    ensures r.Success? ==> |r.value.url| == IdLength && IsId(r.value.url) && Key(r.value.url) !in store.hashes
  {
    attempts := 0;
    var invalid := Validate(title, body);
    if invalid.Some? {
      return Failure(invalid.value), attempts;
    }
    var id;
    id, attempts := GenerateUrl(store, draw, existsFails);
    match id
    case Failure(e) =>
      r := Failure(e);
    case Success(url) =>
      r := BuildPaste(title, body, syntax, mime, expire, url, now);
  }

  /** handleAndValidateForm: the syntax tag looked up from the submitted MIME type, then createPaste. */
  method HandleAndValidateForm(store: Store, title: string, body: string, mime: string, expire: string,
                               now: int, draw: nat -> LetterIndex, existsFails: nat -> bool)
      returns (r: Result<Paste, Error>, ghost attempts: nat)
    requires Validate(title, body).None? ==> EventuallySettles(store.hashes, draw, existsFails)
    ensures Validate(title, body).Some? ==> r == Failure(Validate(title, body).value)
    ensures Validate(title, body).None? ==>
      1 <= attempts && forall j :: 1 <= j < attempts ==> !Settles(store.hashes, draw, existsFails, j)
    ensures Validate(title, body).None? ==> (r.Success? <==> !existsFails(attempts))
    ensures Validate(title, body).None? && r.Failure? ==> r.error == StoreUnavailable
    ensures r.Success? ==> r == BuildPaste(title, body, SyntaxFor(mime), mime, expire, Candidate(draw, attempts), now)
    ensures r.Success? && mime in MimeTypes ==> r.value.syntax == MimeTypes[mime] && r.value.mime == mime
    ensures r.Success? && mime !in MimeTypes ==> r.value.syntax == DefaultSyntax && r.value.mime == DefaultMime
    ensures r.Success? ==> IsId(r.value.url) && Key(r.value.url) !in store.hashes
  {
    r, attempts := CreatePaste(store, title, body, SyntaxFor(mime), mime, expire, now, draw, existsFails);
    if r.Success? {
      FormMimeLookup(title, body, mime, expire, r.value.url, now);
    }
  }

  /**
   * The store after savePaste(p): HMSET of p's fields under paste:<url>, then, only when
   * p expires, EXPIRE of that key. Each command takes effect unless the store fails it.
   */
  function Saved(db: Db, p: Paste, hmsetFails: bool, expireFails: bool): Db {
    var key := Key(p.url);
    var written := if hmsetFails then db else db.HSet(key, Flatten(p));
    if p.expiration != 0 && !expireFails then written.Expire(key, p.expiration) else written
  }

  /** savePaste: the two commands are pipelined and only the HMSET answer is checked. */
  method SavePaste(store: Store, p: Paste, hmsetFails: bool, expireFails: bool) returns (err: Option<Error>)
    modifies store
    ensures store.State() == Saved(old(store.State()), p, hmsetFails, expireFails)
    ensures err == if hmsetFails then Some(StoreUnavailable) else None
  {
    var key := Key(p.url);
    var failed := store.HMSet(key, Flatten(p), hmsetFails);
    if p.expiration != 0 {
      var ignored := store.Expire(key, p.expiration, expireFails);
    }
    err := if failed then Some(StoreUnavailable) else None;
  }

  /**
   * The POST branch of pasteHandler: the form is checked and built, then saved.
   * Nothing is written when the form is refused.
   */
  method SubmitForm(store: Store, title: string, body: string, mime: string, expire: string, now: int,
                    draw: nat -> LetterIndex, existsFails: nat -> bool, hmsetFails: bool, expireFails: bool)
      returns (r: Result<string, Error>, ghost attempts: nat)
    requires Validate(title, body).None? ==> EventuallySettles(store.hashes, draw, existsFails)
    modifies store
    ensures Validate(title, body).Some? ==> r == Failure(Validate(title, body).value) && store.State() == old(store.State())
    ensures Validate(title, body).None? ==>
      1 <= attempts && forall j :: 1 <= j < attempts ==> !Settles(old(store.hashes), draw, existsFails, j)
    ensures Validate(title, body).None? ==> (r.Success? <==> !existsFails(attempts) && !hmsetFails)
    ensures Validate(title, body).None? && r.Failure? ==> r.error == StoreUnavailable
    ensures r.Failure? ==> store.State() == old(store.State())
    ensures r.Success? ==> r.value == Candidate(draw, attempts)
    ensures r.Success? ==> IsId(r.value) && Key(r.value) !in old(store.hashes)
    ensures r.Success? ==>
      var p := BuildPaste(title, body, SyntaxFor(mime), mime, expire, r.value, now).value;
      store.State() == Saved(old(store.State()), p, false, expireFails)
    ensures r.Success? ==>
      var p := BuildPaste(title, body, SyntaxFor(mime), mime, expire, r.value, now).value;
      p.expiration >= 0 || expireFails || !ExpireInRange(p.expiration) ==> Lookup(store.State(), "/p/" + r.value, false) == Success(ForDisplay(p))
  {
    var created;
    created, attempts := HandleAndValidateForm(store, title, body, mime, expire, now, draw, existsFails);
    if created.Failure? {
      return Failure(created.error), attempts;
    }
    ghost var before := store.State();
    var err := SavePaste(store, created.value, hmsetFails, expireFails);
    if err.Some? {
      return Failure(err.value), attempts;
    }
    var p := created.value;
    if p.expiration >= 0 || expireFails || !ExpireInRange(p.expiration) {
      ParseRouteExact("/p/" + p.url, p.url);
      ReadAfterSave(before, p, "/p/" + p.url, expireFails);
    }
    r := Success(p.url);
  }

  // ---------------------------------------------------------------------------------------
  // Reading
  // ---------------------------------------------------------------------------------------

  /** HGETALL paste:<id> scanned into a Paste; None for an error or an empty reply. */
  function Fetch(db: Db, id: string, fails: bool): Option<Paste> {
    var h := db.HashAt(Key(id));
    if fails || |h| == 0 then None else Some(Scan(h))
  }

  /** What getPaste returns for a path. */
  function Lookup(db: Db, path: string, hgetallFails: bool): (r: Result<Paste, Error>)
    ensures r.Failure? ==> r.error == InvalidRoute || r.error == NotFound
  {
    match ParseRoute(path)
    case Failure(e) => Failure(e)
    case Success(id) =>
      match Fetch(db, id, hgetallFails)
      case None => Failure(NotFound)
      case Some(p) => Success(ForDisplay(p))
  }

  /** The store after getPaste: HINCRBY paste:<url> Clicks 1, url being the Url field just read. */
  function AfterRead(db: Db, path: string, hgetallFails: bool, hincrFails: bool): Db {
    match ParseRoute(path)
    case Failure(_) => db
    case Success(id) =>
      match Fetch(db, id, hgetallFails)
      case None => db
      case Some(p) => if hincrFails then db else db.HIncrBy(Key(p.url), "Clicks", 1)
  }

  /**
   * getPaste: the route gives the id, HGETALL fetches the paste, a click is counted,
   * and the paste is returned as displayed, with the click count it had before.
   */
  method GetPaste(store: Store, path: string, hgetallFails: bool, hincrFails: bool)
      returns (r: Result<Paste, Error>)
    modifies store
    ensures r == Lookup(old(store.State()), path, hgetallFails)
    ensures store.State() == AfterRead(old(store.State()), path, hgetallFails, hincrFails)
  {
    var route := ParseRoute(path);
    if route.Failure? {
      return Failure(route.error);
    }
    var reply, err := store.HGetAll(Key(route.value), hgetallFails);
    if |reply| == 0 || err {
      return Failure(NotFound);
    }
    var p := Scan(reply);
    var ignored := store.HIncrBy(Key(p.url), "Clicks", 1, hincrFails);
    r := Success(ForDisplay(p));
  }

  /** cloneHandler: the paste read as getPaste reads it, its title marked as a copy. */
  method Clone(store: Store, path: string, hgetallFails: bool, hincrFails: bool)
      returns (r: Result<Paste, Error>)
    modifies store
    ensures r.Failure? ==> r == Lookup(old(store.State()), path, hgetallFails)
    ensures r.Success? ==> Lookup(old(store.State()), path, hgetallFails).Success?
    ensures r.Success? ==> r.value == CloneView(Lookup(old(store.State()), path, hgetallFails).value)
    ensures store.State() == AfterRead(old(store.State()), path, hgetallFails, hincrFails)
  {
    r := GetPaste(store, path, hgetallFails, hincrFails);
    if r.Success? {
      r := Success(CloneView(r.value));
    }
  }

  // ---------------------------------------------------------------------------------------
  // The document endpoint
  // ---------------------------------------------------------------------------------------

  /**
   * documentHandler as written: createPaste with fixed inputs and the id returned as the
   * key, but the paste is never saved, so the key names no paste in the store.
   */
  method DocumentAsWritten(store: Store, data: string, now: int, draw: nat -> LetterIndex, existsFails: nat -> bool)
      returns (r: Result<string, Error>, ghost attempts: nat)
    requires Validate("", data).None? ==> EventuallySettles(store.hashes, draw, existsFails)
    ensures Validate("", data).Some? ==> r == Failure(Validate("", data).value)
    ensures Validate("", data).None? ==>
      1 <= attempts && forall j :: 1 <= j < attempts ==> !Settles(store.hashes, draw, existsFails, j)
    ensures Validate("", data).None? ==> (r.Success? <==> !existsFails(attempts))
    ensures r.Success? ==> r.value == Candidate(draw, attempts) && Key(r.value) !in store.hashes
    ensures r.Success? ==> Lookup(store.State(), "/" + r.value, false) == Failure(NotFound)
  {
    var created;
    created, attempts := CreatePaste(store, "", data, "", "", "0", now, draw, existsFails);
    match created
    case Failure(e) =>
      r := Failure(e);
    case Success(p) =>
      ParseRouteExact("/" + p.url, p.url);
      r := Success(p.url);
  }

  /** documentHandler with the paste saved, as the POST form path does, so the key can be read. */
  method Document(store: Store, data: string, now: int, draw: nat -> LetterIndex, existsFails: nat -> bool,
                  hmsetFails: bool)
      returns (r: Result<string, Error>, ghost attempts: nat)
    requires Validate("", data).None? ==> EventuallySettles(store.hashes, draw, existsFails)
    modifies store
    ensures Validate("", data).Some? ==> r == Failure(Validate("", data).value) && store.State() == old(store.State())
    ensures Validate("", data).None? ==>
      1 <= attempts && forall j :: 1 <= j < attempts ==> !Settles(old(store.hashes), draw, existsFails, j)
    ensures Validate("", data).None? ==> (r.Success? <==> !existsFails(attempts) && !hmsetFails)
    ensures r.Failure? ==> store.State() == old(store.State())
    ensures r.Success? ==> r.value == Candidate(draw, attempts) && Key(r.value) !in old(store.hashes)
    ensures r.Success? ==>
      store.State() == Saved(old(store.State()), BuildPaste("", data, "", "", "0", r.value, now).value, false, false)
    ensures r.Success? ==>
      Lookup(store.State(), "/" + r.value, false)
        == Success(Paste(r.value, DefaultTitle, data, DefaultSyntax, DefaultMime, 0, 0, 0, now, None))
  {
    var created;
    created, attempts := CreatePaste(store, "", data, "", "", "0", now, draw, existsFails);
    if created.Failure? {
      return Failure(created.error), attempts;
    }
    var p := created.value;
    DocumentDefaults(data, p.url, now);
    var err := SavePaste(store, p, hmsetFails, false);
    if err.Some? {
      return Failure(err.value), attempts;
    }
    ParseRouteExact("/" + p.url, p.url);
    ReadAfterSave(old(store.State()), p, "/" + p.url, false);
    r := Success(p.url);
  }

  // ---------------------------------------------------------------------------------------
  // Properties of saving and reading
  // ---------------------------------------------------------------------------------------

  /** Saving touches no key but paste:<url>, in the hashes or in the time-to-live map. */
  lemma SaveChangesOnlyItsKey(db: Db, p: Paste, hmsetFails: bool, expireFails: bool)
    ensures Saved(db, p, hmsetFails, expireFails).hashes - {Key(p.url)} == db.hashes - {Key(p.url)}
    ensures Saved(db, p, hmsetFails, expireFails).ttls - {Key(p.url)} == db.ttls - {Key(p.url)}
  {
    var key := Key(p.url);
    var written := if hmsetFails then db else db.HSet(key, Flatten(p));
    if !hmsetFails {
      HSetFrame(db, key, Flatten(p));
    }
    if p.expiration != 0 && !expireFails {
      ExpireFrame(written, key, p.expiration);
    }
  }

  /** HMSET leaves every other key as it was. */
  lemma HSetFrame(db: Db, key: string, fields: Hash)
    ensures db.HSet(key, fields).hashes - {key} == db.hashes - {key}
    ensures db.HSet(key, fields).ttls == db.ttls
  {
  }

  /** EXPIRE leaves every other key as it was. */
  lemma ExpireFrame(db: Db, key: string, secs: int)
    ensures db.Expire(key, secs).hashes - {key} == db.hashes - {key}
    ensures db.Expire(key, secs).ttls - {key} == db.ttls - {key}
  {
  }

  /** A saved paste sits under paste:<url> with every stored field as the paste has it. */
  lemma SaveStoresPaste(db: Db, p: Paste, expireFails: bool)
    requires p.expiration >= 0 || expireFails || !ExpireInRange(p.expiration)
    ensures Key(p.url) in Saved(db, p, false, expireFails).hashes
    ensures Scan(Saved(db, p, false, expireFails).hashes[Key(p.url)]) == p.(expirationFormatted := None)
  {
    ScanOverwrite(db.HashAt(Key(p.url)), p);
  }

  /** The time-to-live is p.expiration exactly when p expires; a paste that does not expire sets none. */
  lemma SaveSetsTtl(db: Db, p: Paste, hmsetFails: bool, expireFails: bool)
    ensures p.expiration == 0 ==> Saved(db, p, hmsetFails, expireFails).ttls == db.ttls
    ensures p.expiration > 0 && ExpireInRange(p.expiration) && !hmsetFails && !expireFails ==>
      Saved(db, p, hmsetFails, expireFails).ttls == db.ttls[Key(p.url) := p.expiration]
    ensures !ExpireInRange(p.expiration) ==> Saved(db, p, hmsetFails, expireFails) == Saved(db, p, hmsetFails, true)
  {
  }

  /** An expiration too large for EXPIRE leaves the saved paste in the store with no time-to-live. */
  lemma HugeExpiryNeverExpires(db: Db, p: Paste)
    requires p.expiration > MaxExpireSeconds && Key(p.url) !in db.ttls
    ensures Key(p.url) in Saved(db, p, false, false).hashes
    ensures Key(p.url) !in Saved(db, p, false, false).ttls
  {
  }

  /** A negative expiration (the expiry text may carry a sign) makes EXPIRE delete the paste just saved. */
  lemma NegativeExpiryDeletes(db: Db, p: Paste)
    requires p.expiration < 0
    ensures ExpireInRange(p.expiration) ==> Key(p.url) !in Saved(db, p, false, false).hashes
    ensures ExpireInRange(p.expiration) ==> Key(p.url) !in Saved(db, p, false, false).ttls
    ensures !ExpireInRange(p.expiration) ==> Key(p.url) in Saved(db, p, false, false).hashes
  {
  }

  /**
   * The store is consistent when only existing keys expire, every hash lives under the key of
   * the Url it holds, and every click count is an integer Redis can increment.
   */
  predicate Consistent(db: Db) {
    && db.Valid()
    && (forall k :: k in db.hashes ==> k == Key(Scan(db.hashes[k]).url))
    && (forall k :: k in db.hashes && "Clicks" in db.hashes[k] ==> StoredInt(db.hashes[k]["Clicks"]).Some?)
  }

  lemma SaveKeepsConsistent(db: Db, p: Paste, hmsetFails: bool, expireFails: bool)
    requires Consistent(db)
    ensures Consistent(Saved(db, p, hmsetFails, expireFails))
  {
    var key := Key(p.url);
    var written := if hmsetFails then db else db.HSet(key, Flatten(p));
    if !hmsetFails {
      ScanOverwrite(db.HashAt(key), p);
      StoredIntFormat(p.clicks);
      assert written.hashes[key]["Clicks"] == Strconv.FormatInt(p.clicks);
    }
    assert Consistent(written);
  }

  /** A saved paste, read back through any of its routes, is the paste as displayed. */
  lemma ReadAfterSave(db: Db, p: Paste, path: string, expireFails: bool)
    requires ParseRoute(path) == Success(p.url)
    requires p.expiration >= 0 || expireFails || !ExpireInRange(p.expiration)
    ensures Lookup(Saved(db, p, false, expireFails), path, false) == Success(ForDisplay(p.(expirationFormatted := None)))
  {
    SaveStoresPaste(db, p, expireFails);
    var h := Saved(db, p, false, expireFails).hashes[Key(p.url)];
    assert "Url" in h;
    assert |h| != 0;
  }

  /** A paste the store has dropped (its time-to-live ran out) is not found. */
  lemma ExpiredPasteNotFound(db: Db, path: string, id: string)
    requires ParseRoute(path) == Success(id)
    requires Key(id) !in db.hashes
    ensures Lookup(db, path, false) == Failure(NotFound)
    ensures AfterRead(db, path, false, false) == db
  {
  }

  /** In a consistent store, a read returns the paste whose id the path names. */
  lemma ReadReturnsRequestedId(db: Db, path: string, id: string, hgetallFails: bool)
    requires Consistent(db)
    requires ParseRoute(path) == Success(id)
    requires Lookup(db, path, hgetallFails).Success?
    ensures Lookup(db, path, hgetallFails).value.url == id
  {
    var h := db.HashAt(Key(id));
    assert Key(id) in db.hashes;
    KeyInjective(id, Scan(h).url);
  }

  /** A read that finds nothing changes nothing. */
  lemma FailedReadChangesNothing(db: Db, path: string, hgetallFails: bool, hincrFails: bool)
    requires Lookup(db, path, hgetallFails).Failure?
    ensures AfterRead(db, path, hgetallFails, hincrFails) == db
  {
  }

  /**
   * In a consistent store, a successful read adds exactly one click to that paste and
   * changes nothing else; the reader sees the count from before the click.
   */
  lemma ReadCountsOneClick(db: Db, path: string, id: string)
    requires Consistent(db)
    requires ParseRoute(path) == Success(id)
    requires Fetch(db, id, false).Some?
    ensures var p := Fetch(db, id, false).value;
      && Lookup(db, path, false) == Success(ForDisplay(p))
      && Fetch(AfterRead(db, path, false, false), id, false) == Some(p.(clicks := p.clicks + 1))
      && AfterRead(db, path, false, false).hashes - {Key(id)} == db.hashes - {Key(id)}
      && AfterRead(db, path, false, false).ttls == db.ttls
  {
    var h := db.HashAt(Key(id));
    var p := Scan(h);
    assert Key(id) in db.hashes;
    KeyInjective(id, p.url);
    var n := if "Clicks" in h then StoredInt(h["Clicks"]).value else 0;
    var h' := h["Clicks" := Strconv.FormatInt(n + 1)];
    assert AfterRead(db, path, false, false).hashes == db.hashes[Key(id) := h'];
    Strconv.FormatParseRoundTrip(n + 1);
    assert Scan(h') == p.(clicks := p.clicks + 1);
  }

  lemma ReadKeepsConsistent(db: Db, path: string, hgetallFails: bool, hincrFails: bool)
    requires Consistent(db)
    ensures Consistent(AfterRead(db, path, hgetallFails, hincrFails))
  {
    match ParseRoute(path)
    case Failure(_) =>
    case Success(id) =>
      if Fetch(db, id, hgetallFails).Some? && !hincrFails {
        ReadCountsOneClick(db, path, id);
        var h := db.HashAt(Key(id));
        var n := if "Clicks" in h then StoredInt(h["Clicks"]).value else 0;
        StoredIntFormat(n + 1);
        var after := AfterRead(db, path, hgetallFails, hincrFails);
        assert after.hashes == db.hashes[Key(id) := h["Clicks" := Strconv.FormatInt(n + 1)]] by {
          KeyInjective(id, Scan(h).url);
        }
      }
  }

  /** Two reads of a paste in a row: the second sees one click more, and two clicks are counted. */
  lemma ReadTwice(db: Db, path: string, id: string)
    requires Consistent(db)
    requires ParseRoute(path) == Success(id)
    requires Fetch(db, id, false).Some?
    ensures var once := AfterRead(db, path, false, false);
      && Lookup(once, path, false).Success?
      && Lookup(once, path, false).value.clicks == Lookup(db, path, false).value.clicks + 1
      && Fetch(AfterRead(once, path, false, false), id, false).value.clicks == Fetch(db, id, false).value.clicks + 2
  {
    ReadCountsOneClick(db, path, id);
    var once := AfterRead(db, path, false, false);
    ReadKeepsConsistent(db, path, false, false);
    ReadCountsOneClick(once, path, id);
  }

  /**
   * A Python paste submitted with title "T", body "hello" and expiry "0" reads back as
   * submitted, without a countdown.
   */
  lemma PythonRoundTrip(db: Db, url: string, now: int)
    requires IsId(url)
    ensures var p := BuildPaste("T", "hello", SyntaxFor("text/x-python"), "text/x-python", "0", url, now).value;
      && Lookup(Saved(db, p, false, false), "/p/" + url, false)
         == Success(Paste(url, "T", "hello", "python", "text/x-python", 0, 0, 0, now, None))
  {
    DocumentDefaults("hello", url, now);
    assert SyntaxFor("text/x-python") == "python";
    var p := BuildPaste("T", "hello", "python", "text/x-python", "0", url, now).value;
    assert p == Paste(url, "T", "hello", "python", "text/x-python", 0, 0, 0, now, None);
    ParseRouteExact("/p/" + url, url);
    ReadAfterSave(db, p, "/p/" + url, false);
  }
}
