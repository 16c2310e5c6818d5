/**
 * The `urls` table as a value: rows keyed by their UNIQUE `youtube_id`, each with
 * its AUTOINCREMENT surrogate `id`, a nullable `title` and the `downloaded` and
 * `transcribed` flags, together with the next surrogate id SQLite will hand out.
 * The functions here specify what each statement of the storage layer does to it.
 */
module UrlTable {
  import opened UrlNormalise

  datatype Option<T> = None | Some(value: T)

  /** One row of `urls`; its `youtube_id` is the key the row is stored under. */
  datatype Row = Row(id: int, title: Option<string>, downloaded: bool, transcribed: bool)

  /** The rows by `youtube_id`, and the value the next AUTOINCREMENT insert receives. */
  datatype Table = Table(rows: map<string, Row>, nextId: int)

  /** A freshly created table: no rows, and AUTOINCREMENT starts at 1. */
  const Empty: Table := Table(map[], 1)

  /** Surrogate ids are positive, below the next one to be handed out, and distinct. */
  predicate WellFormed(t: Table) {
    && 1 <= t.nextId
    && (forall k :: k in t.rows ==> 1 <= t.rows[k].id < t.nextId)
    && (forall k1, k2 :: k1 in t.rows && k2 in t.rows && k1 != k2 ==> t.rows[k1].id != t.rows[k2].id)
  }

  /** The row `INSERT ... VALUES (?, NULL, false, false)` creates. */
  function NewRow(id: int): Row {
    Row(id, None, false, false)
  }

  /**
   * One INSERT of `key`. A key already present violates UNIQUE; the IntegrityError
   * is swallowed, so the table is left as it was.
   */
  function InsertKey(t: Table, key: string): (r: Table)
    ensures key in r.rows && r.rows.Keys == t.rows.Keys + {key}
    ensures forall k :: k in t.rows ==> r.rows[k] == t.rows[k]
    ensures key in t.rows ==> r == t
    ensures key !in t.rows ==> r.rows[key] == NewRow(t.nextId) && r.nextId == t.nextId + 1
    ensures WellFormed(t) ==> WellFormed(r)
  {
    if key in t.rows then t
    else Table(t.rows[key := NewRow(t.nextId)], t.nextId + 1)
  }

  /** `save_urls(urls)`: the rows after inserting the key of each URL, in list order. */
  function InsertUrls(t: Table, urls: seq<string>): (r: Table)
    ensures t.rows.Keys <= r.rows.Keys
    decreases |urls|
  {
    if urls == [] then t
    else InsertKey(InsertUrls(t, urls[..|urls| - 1]), NormaliseKey(urls[|urls| - 1]))
  }

  /** The keys `save_urls` derives from a list of URLs. */
  function KeysOf(urls: seq<string>): set<string> {
    set i | 0 <= i < |urls| :: NormaliseKey(urls[i])
  }

  /** The rows `SELECT ... WHERE downloaded = ?` may return. */
  function Selectable(t: Table, downloaded: bool): (r: set<string>)
    ensures r <= t.rows.Keys
    ensures forall k :: k in r ==> t.rows[k].downloaded == downloaded
  {
    set k | k in t.rows && t.rows[k].downloaded == downloaded
  }

  /** Every stored key is returnable by exactly one of `retrieve_url(False)` and `retrieve_url(True)`. */
  lemma SelectionsPartitionRows(t: Table)
    ensures Selectable(t, false) !! Selectable(t, true)
    ensures Selectable(t, false) + Selectable(t, true) == t.rows.Keys
  {
  }

  /** `UPDATE urls SET title = ? WHERE youtube_id = ?`. */
  function SetTitle(t: Table, key: string, title: string): (r: Table)
    ensures r.nextId == t.nextId && r.rows.Keys == t.rows.Keys
    ensures forall k :: k in t.rows && k != key ==> r.rows[k] == t.rows[k]
    ensures key in t.rows ==> r.rows[key] == t.rows[key].(title := Some(title))
    ensures key !in t.rows ==> r == t
    ensures WellFormed(t) ==> WellFormed(r)
  {
    if key in t.rows then Table(t.rows[key := t.rows[key].(title := Some(title))], t.nextId)
    else t
  }

  /** `UPDATE urls SET downloaded = true WHERE youtube_id = ?`. */
  function MarkDownloaded(t: Table, key: string): (r: Table)
    ensures r.nextId == t.nextId && r.rows.Keys == t.rows.Keys
    ensures forall k :: k in t.rows && k != key ==> r.rows[k] == t.rows[k]
    ensures key in t.rows ==> r.rows[key] == t.rows[key].(downloaded := true)
    ensures key !in t.rows ==> r == t
    ensures WellFormed(t) ==> WellFormed(r)
  {
    if key in t.rows then Table(t.rows[key := t.rows[key].(downloaded := true)], t.nextId)
    else t
  }

  // ---------------------------------------------------------------------------
  // save_urls
  // ---------------------------------------------------------------------------

  /** Saving one more URL of the list inserts exactly that URL's key. */
  lemma InsertUrlsExtend(t: Table, urls: seq<string>, i: int)
    requires 0 <= i < |urls|
    ensures InsertUrls(t, urls[..i + 1]) == InsertKey(InsertUrls(t, urls[..i]), NormaliseKey(urls[i]))
  {
    var done := urls[..i + 1];
    assert done[..|done| - 1] == urls[..i] && done[|done| - 1] == urls[i];
  }

  /** `save_urls(L)` adds at most one row per URL of `L`. */
  lemma {:induction false} InsertUrlsAtMostOneRowEach(t: Table, urls: seq<string>)
    ensures |InsertUrls(t, urls).rows| <= |t.rows| + |urls|
    decreases |urls|
  {
    if urls != [] {
      InsertUrlsAtMostOneRowEach(t, urls[..|urls| - 1]);
    }
  }

  lemma KeysOfSnoc(urls: seq<string>)
    requires urls != []
    ensures KeysOf(urls) == KeysOf(urls[..|urls| - 1]) + {NormaliseKey(urls[|urls| - 1])}
  {
    var init := urls[..|urls| - 1];
    forall k | k in KeysOf(urls)
      ensures k in KeysOf(init) + {NormaliseKey(urls[|urls| - 1])}
    {
      var i :| 0 <= i < |urls| && k == NormaliseKey(urls[i]);
      if i < |urls| - 1 {
        assert init[i] == urls[i];
      }
    }
    forall k | k in KeysOf(init)
      ensures k in KeysOf(urls)
    {
      var i :| 0 <= i < |init| && k == NormaliseKey(init[i]);
      assert urls[i] == init[i];
    }
  }

  /** After `save_urls(urls)` the keys are the earlier ones plus the key of every URL in the list. */
  lemma {:induction false} InsertUrlsKeys(t: Table, urls: seq<string>)
    ensures InsertUrls(t, urls).rows.Keys == t.rows.Keys + KeysOf(urls)
    decreases |urls|
  {
    if urls != [] {
      InsertUrlsKeys(t, urls[..|urls| - 1]);
      KeysOfSnoc(urls);
    }
  }

  /** Rows that existed before `save_urls` keep their id, title and flags. */
  lemma {:induction false} InsertUrlsKeepsRows(t: Table, urls: seq<string>)
    ensures t.rows.Keys <= InsertUrls(t, urls).rows.Keys
    ensures forall k :: k in t.rows ==> InsertUrls(t, urls).rows[k] == t.rows[k]
    ensures t.nextId <= InsertUrls(t, urls).nextId
    decreases |urls|
  {
    if urls != [] {
      InsertUrlsKeepsRows(t, urls[..|urls| - 1]);
    }
  }

  /**
   * Every row `save_urls` adds has no title, both flags false, and a surrogate id
   * above every id assigned before; the table stays well formed.
   */
  lemma {:induction false} InsertUrlsNewRows(t: Table, urls: seq<string>)
    requires WellFormed(t)
    ensures var r := InsertUrls(t, urls);
      && WellFormed(r)
      && forall k :: k in r.rows && k !in t.rows ==>
           && r.rows[k].title == None
           && !r.rows[k].downloaded
           && !r.rows[k].transcribed
           && t.nextId <= r.rows[k].id
           && forall old_k :: old_k in t.rows ==> t.rows[old_k].id < r.rows[k].id
    decreases |urls|
  {
    if urls != [] {
      InsertUrlsNewRows(t, urls[..|urls| - 1]);
      InsertUrlsKeepsRows(t, urls[..|urls| - 1]);
    }
  }

  /** The surrogate counter advances by exactly the number of rows inserted. */
  lemma {:induction false} InsertUrlsCount(t: Table, urls: seq<string>)
    ensures |InsertUrls(t, urls).rows| == |t.rows| + (InsertUrls(t, urls).nextId - t.nextId)
    decreases |urls|
  {
    if urls != [] {
      InsertUrlsCount(t, urls[..|urls| - 1]);
    }
  }

  /** When every key of the list is already stored, `save_urls` changes nothing. */
  lemma {:induction false} InsertUrlsPresentKeys(t: Table, urls: seq<string>)
    requires KeysOf(urls) <= t.rows.Keys
    ensures InsertUrls(t, urls) == t
    decreases |urls|
  {
    if urls != [] {
      KeysOfSnoc(urls);
      InsertUrlsPresentKeys(t, urls[..|urls| - 1]);
    }
  }

  /** Calling `save_urls(urls)` a second time leaves the table as the first call left it. */
  lemma InsertUrlsIdempotent(t: Table, urls: seq<string>)
    ensures InsertUrls(InsertUrls(t, urls), urls) == InsertUrls(t, urls)
  {
    InsertUrlsKeys(t, urls);
    InsertUrlsPresentKeys(InsertUrls(t, urls), urls);
  }

  /** The key of every URL not stored before `save_urls` is afterwards one `retrieve_url(False)` may return. */
  lemma SavedUrlIsSelectable(t: Table, urls: seq<string>, i: nat)
    requires i < |urls|
    requires NormaliseKey(urls[i]) !in t.rows
    ensures NormaliseKey(urls[i]) in Selectable(InsertUrls(t, urls), false)
  {
    InsertUrlsKeys(t, urls);
    assert NormaliseKey(urls[i]) in KeysOf(urls);
    InsertUrlsNewRowsDefaults(t, urls);
  }

  /** The flag part of `InsertUrlsNewRows`, which needs no well-formedness. */
  lemma {:induction false} InsertUrlsNewRowsDefaults(t: Table, urls: seq<string>)
    ensures var r := InsertUrls(t, urls);
      forall k :: k in r.rows && k !in t.rows ==> r.rows[k].title == None && !r.rows[k].downloaded && !r.rows[k].transcribed
    decreases |urls|
  {
    if urls != [] {
      InsertUrlsNewRowsDefaults(t, urls[..|urls| - 1]);
      InsertUrlsKeepsRows(t, urls[..|urls| - 1]);
    }
  }

  /**
   * Two batches naming the same video, one with a playback offset, leave one row:
   * the second batch inserts nothing.
   */
  lemma OverlappingBatchesOneRow(t: Table, videoId: string, d: string)
    requires '&' !in videoId
    requires |d| > 0 && forall i :: 0 <= i < |d| ==> IsDigit(d[i])
    ensures var first := InsertUrls(t, [WatchPrefix + videoId]);
      && videoId in first.rows
      && InsertUrls(first, [WatchPrefix + videoId + "&t=" + d + "s"]) == first
  {
    var u1 := WatchPrefix + videoId;
    var u2 := WatchPrefix + videoId + "&t=" + d + "s";
    KeyOfWatchUrl(videoId);
    RemoveSkipsAmpersandFreePrefix(videoId, []);
    assert videoId + [] == videoId;
    assert WatchPrefix + videoId + [] == WatchPrefix + videoId;
    KeyOfWatchUrlWithOffset(videoId, d);
    var first := InsertUrls(t, [u1]);
    assert [u1][..0] == [];
    assert [u2][..0] == [];
    assert NormaliseKey(u1) == videoId;
    assert NormaliseKey(u2) == videoId;
  }

  // ---------------------------------------------------------------------------
  // retrieve_url, save_title, make_url_downloaded
  // ---------------------------------------------------------------------------

  /** `make_url_downloaded` is idempotent. */
  lemma MarkDownloadedIdempotent(t: Table, key: string)
    ensures MarkDownloaded(MarkDownloaded(t, key), key) == MarkDownloaded(t, key)
  {
    if key in t.rows {
      var r := MarkDownloaded(t, key);
      assert r.rows[key := r.rows[key].(downloaded := true)] == r.rows;
    }
  }

  /** A later `save_title` of the same row overwrites an earlier one. */
  lemma SetTitleLastWriteWins(t: Table, key: string, a: string, b: string)
    ensures SetTitle(SetTitle(t, key, a), key, b) == SetTitle(t, key, b)
  {
    if key in t.rows {
      assert SetTitle(SetTitle(t, key, a), key, b).rows == SetTitle(t, key, b).rows;
    }
  }

  /** The two updates touch different fields, so their order does not matter. */
  lemma SetTitleMarkDownloadedCommute(t: Table, key1: string, key2: string, title: string)
    ensures SetTitle(MarkDownloaded(t, key2), key1, title) == MarkDownloaded(SetTitle(t, key1, title), key2)
  {
    var a := SetTitle(MarkDownloaded(t, key2), key1, title);
    var b := MarkDownloaded(SetTitle(t, key1, title), key2);
    forall k | k in t.rows
      ensures a.rows[k] == b.rows[k]
    {
      if k == key1 && k == key2 {
        assert a.rows[k] == t.rows[k].(title := Some(title), downloaded := true);
      }
    }
    assert a.rows == b.rows;
  }

  /**
   * `make_url_downloaded(key)` moves a stored key from what `retrieve_url(False)`
   * can return to what `retrieve_url(True)` can return, and moves nothing else.
   */
  lemma MarkDownloadedMovesSelection(t: Table, key: string)
    ensures Selectable(MarkDownloaded(t, key), false) == Selectable(t, false) - {key}
    ensures Selectable(MarkDownloaded(t, key), true) == Selectable(t, true) + ({key} * t.rows.Keys)
  {
  }

  /** `save_title` never changes what `retrieve_url` can return. */
  lemma SetTitleKeepsSelection(t: Table, key: string, title: string, downloaded: bool)
    ensures Selectable(SetTitle(t, key, title), downloaded) == Selectable(t, downloaded)
  {
  }
}
