/**
 * The `Storage` class of the search-tube storage layer: one SQLite `urls` table,
 * held here as a map from `youtube_id` to row plus the AUTOINCREMENT counter, and
 * changed in place by the class's methods.
 */
module SearchTube {
  import opened UrlNormalise
  import opened UrlTable

  class Storage {
    var rows: map<string, Row>
    var nextId: int

    /** The table this object holds. */
    function State(): Table
      reads this
    {
      Table(rows, nextId)
    }

    ghost predicate Valid()
      reads this
    {
      WellFormed(State())
    }

    /** Opening a new database and creating the `urls` table. */
    constructor ()
      ensures Valid()
      ensures State() == Empty
    {
      rows := map[];
      nextId := 1;
    }

    /**
     * `save_urls`: for each URL, in order, derive its key and INSERT a fresh row;
     * a key already present is skipped without changing anything.
     */
    method SaveUrls(urlList: seq<string>)
      requires Valid()
      modifies this
      ensures Valid()
      ensures State() == InsertUrls(old(State()), urlList)
    {
      var i := 0;
      while i < |urlList|
        invariant 0 <= i <= |urlList|
        invariant Valid()
        invariant State() == InsertUrls(old(State()), urlList[..i])
      {
        ghost var before := State();
        var trimmedUrl := NormaliseKey(urlList[i]);
        if trimmedUrl !in rows {
          rows := rows[trimmedUrl := NewRow(nextId)];
          nextId := nextId + 1;
        }
        // else: the UNIQUE constraint raises IntegrityError, which is swallowed
        assert State() == InsertKey(before, trimmedUrl);
        InsertUrlsExtend(old(State()), urlList, i);
        i := i + 1;
      }
      assert urlList[..i] == urlList;
    }

    /**
     * `retrieve_url(downloaded)`: `SELECT youtube_id ... WHERE downloaded = ? LIMIT 1`.
     * Without ORDER BY any matching row may come back.
     */
    method RetrieveUrl(downloaded: bool) returns (ids: seq<string>)
      ensures |ids| <= 1
      ensures forall i :: 0 <= i < |ids| ==> ids[i] in rows && rows[ids[i]].downloaded == downloaded
      ensures ids == [] <==> forall k :: k in rows ==> rows[k].downloaded != downloaded
    {
      var candidates := Selectable(State(), downloaded);
      if candidates == {} {
        forall k | k in rows
          ensures rows[k].downloaded != downloaded
        {
          assert k !in candidates;
        }
        ids := [];
      } else {
        var k :| k in candidates;
        ids := [k];
      }
    }

    /** `save_title`: sets the title of the row with this `youtube_id`, if there is one. */
    method SaveTitle(youtubeId: string, title: string)
      requires Valid()
      modifies this
      ensures Valid()
      ensures State() == SetTitle(old(State()), youtubeId, title)
    {
      if youtubeId in rows {
        rows := rows[youtubeId := rows[youtubeId].(title := Some(title))];
      }
    }

    /** `make_url_downloaded`: sets `downloaded` of the row with this `youtube_id`, if there is one. */
    method MakeUrlDownloaded(youtubeId: string)
      requires Valid()
      modifies this
      ensures Valid()
      ensures State() == MarkDownloaded(old(State()), youtubeId)
    {
      if youtubeId in rows {
        rows := rows[youtubeId := rows[youtubeId].(downloaded := true)];
      }
    }
  }
}
