/** The news and reaction tables (scrapping/models.py) and the operations on them: the
    scrapers' `get_or_create` keyed by title (scrapping/new_scrapping.py and
    scrapping/scrape_local_news.py), the reaction upsert and the news delete
    (scrapping/views.py). Primary keys are allocated in increasing order. */
module NewsDb {
  import opened Wrappers
  import opened Sets
  import opened HttpStatus

  type NewsId = nat
  type UserId = nat

  /** A `News` row; every nullable column is an `Option`. */
  datatype News = News(
    title: Option<string>,
    description: Option<string>,
    category: Option<string>,
    relativeTime: Option<string>,
    publishedDatetime: Option<string>,
    image: string,
    badge: Option<string>)

  const CATEGORY_MAX := 100
  const RELATIVE_TIME_MAX := 300
  const IMAGE_MAX := 500
  const BADGE_MAX := 50

  predicate AtMost(v: Option<string>, n: nat) {
    v.Some? ==> |v.value| <= n
  }

  /** The row fits the declared `max_length` of every character column. */
  predicate FitsColumns(n: News) {
    && AtMost(n.category, CATEGORY_MAX)
    && AtMost(n.relativeTime, RELATIVE_TIME_MAX)
    && |n.image| <= IMAGE_MAX
    && AtMost(n.badge, BADGE_MAX)
  }

  /** A `Reaction` row; the key (user, news) is the table's unique pair. */
  datatype Reaction = Reaction(love: bool, comment: Option<string>, createdAt: int)

  predicate TitleIs(n: News, title: string) {
    n.title == Some(title)
  }

  /** The ids of the rows `News.objects.filter(title=title)` selects; a NULL title
      never matches. */
  function Matches(rows: map<NewsId, News>, title: string): (r: set<NewsId>)
    ensures forall id :: id in r <==> id in rows && TitleIs(rows[id], title)
  {
    set id | id in rows && TitleIs(rows[id], title)
  }

  /** What the lookup half of `get_or_create` finds. */
  datatype TitleMatch = Missing | One(id: NewsId) | Many

  lemma SingleMember(m: set<NewsId>, a: NewsId, b: NewsId)
    requires |m| == 1 && a in m && b in m
    ensures a == b
  {
    if a != b {
      assert {a, b} <= m;
      assert |{a, b}| == 2;
      SubsetCard({a, b}, m);
    }
  }

  lemma TwoMembers(m: set<NewsId>)
    requires |m| >= 2
    ensures exists a, b :: a in m && b in m && a != b
  {
    var a :| a in m;
    assert m == (m - {a}) + {a};
    assert |m - {a}| == |m| - 1;
    var b :| b in m - {a};
  }

  ghost function MatchTitle(rows: map<NewsId, News>, title: string): (r: TitleMatch)
    ensures r.Missing? <==> forall id :: id in rows ==> !TitleIs(rows[id], title)
    ensures r.One? ==> r.id in rows && TitleIs(rows[r.id], title)
    ensures r.One? ==> forall id :: id in rows && TitleIs(rows[id], title) ==> id == r.id
    ensures r.Many? <==> exists a, b :: a in Matches(rows, title) && b in Matches(rows, title) && a != b
  {
    var m := Matches(rows, title);
    if |m| == 0 then
      assert m == {};
      Missing
    else if |m| == 1 then
      var id :| id in m;
      forall other | other in m ensures other == id { SingleMember(m, other, id); }
      One(id)
    else
      TwoMembers(m);
      Many
  }

  /** The `defaults` the scrapers pass; `badge` is only given by the local scraper. */
  datatype Defaults = Defaults(
    description: string,
    category: string,
    relativeTime: string,
    publishedDatetime: string,
    image: string,
    badge: Option<string>)

  function NewRow(title: string, d: Defaults): (r: News)
    ensures TitleIs(r, title)
  {
    News(Some(title), Some(d.description), Some(d.category), Some(d.relativeTime),
      Some(d.publishedDatetime), d.image, d.badge)
  }

  datatype DbError = MultipleObjectsReturned | ValueTooLong

  /** The table (rows and next key) after `get_or_create`: only a missing title that
      fits its columns adds a row. */
  ghost function AfterGetOrCreate(rows: map<NewsId, News>, nextId: NewsId, title: string, d: Defaults)
    : (map<NewsId, News>, NewsId)
  {
    if MatchTitle(rows, title).Missing? && FitsColumns(NewRow(title, d)) then
      (rows[nextId := NewRow(title, d)], nextId + 1)
    else (rows, nextId)
  }

  /** The reaction after the upsert: `love` is the request's value or False, the
      comment is replaced only when the request carries one, and the creation time is
      that of the first upsert. */
  function Upserted(prev: Option<Reaction>, love: Option<bool>, comment: Option<string>, now: int): (r: Reaction)
    ensures r.love == love.GetOr(false)
    ensures r.comment == if comment.Some? then comment else if prev.Some? then prev.value.comment else None
    ensures r.createdAt == if prev.Some? then prev.value.createdAt else now
  {
    var base := if prev.Some? then prev.value else Reaction(false, None, now);
    Reaction(love.GetOr(false), if comment.Some? then comment else base.comment, base.createdAt)
  }

  /** The reactions left once a news row is deleted (`on_delete=CASCADE`). */
  function WithoutNews(reactions: map<(UserId, NewsId), Reaction>, id: NewsId): (r: map<(UserId, NewsId), Reaction>)
    ensures forall k :: k in r <==> k in reactions && k.1 != id
    ensures forall k :: k in r ==> r[k] == reactions[k]
  {
    map k | k in reactions && k.1 != id :: reactions[k]
  }

  /** The reactions left once a user is deleted (`on_delete=CASCADE`). */
  function WithoutUser(reactions: map<(UserId, NewsId), Reaction>, user: UserId): (r: map<(UserId, NewsId), Reaction>)
    ensures forall k :: k in r <==> k in reactions && k.0 != user
    ensures forall k :: k in r ==> r[k] == reactions[k]
  {
    map k | k in reactions && k.0 != user :: reactions[k]
  }

  class NewsTable {
    var rows: map<NewsId, News>
    var nextId: NewsId
    var reactions: map<(UserId, NewsId), Reaction>

    /** Keys below the next id, every reaction on an existing row, every row within
        its column limits. */
    ghost predicate Valid()
      reads this
    {
      && (forall id :: id in rows ==> id < nextId)
      && (forall k :: k in reactions ==> k.1 in rows)
      && (forall id :: id in rows ==> FitsColumns(rows[id]))
    }

    constructor()
      ensures Valid() && rows == map[] && reactions == map[] && nextId == 0
    {
      rows := map[];
      nextId := 0;
      reactions := map[];
    }

    /** `News.objects.get_or_create(title=title, defaults=...)`: an existing row is
        returned unchanged, a second one raises, and a missing one is inserted (which
        fails when a value is longer than its column). */
    method GetOrCreateNews(title: string, defaults: Defaults) returns (r: Result<(NewsId, bool), DbError>)
      requires Valid()
      modifies this
      ensures Valid()
      ensures reactions == old(reactions)
      ensures (rows, nextId) == AfterGetOrCreate(old(rows), old(nextId), title, defaults)
      ensures old(MatchTitle(rows, title)).Many? ==>
        r == Err(MultipleObjectsReturned) && rows == old(rows) && nextId == old(nextId)
      ensures old(MatchTitle(rows, title)).One? ==>
        r == Ok((old(MatchTitle(rows, title)).id, false)) && rows == old(rows) && nextId == old(nextId)
      ensures old(MatchTitle(rows, title)).Missing? && !FitsColumns(NewRow(title, defaults)) ==>
        r == Err(ValueTooLong) && rows == old(rows) && nextId == old(nextId)
      ensures old(MatchTitle(rows, title)).Missing? && FitsColumns(NewRow(title, defaults)) ==>
        && r == Ok((old(nextId), true))
        && rows == old(rows)[old(nextId) := NewRow(title, defaults)]
        && nextId == old(nextId) + 1
    {
      var matches := Matches(rows, title);
      ghost var found := MatchTitle(rows, title);
      if |matches| == 0 {
        assert matches == {};
        var row := NewRow(title, defaults);
        if !FitsColumns(row) {
          return Err(ValueTooLong);
        }
        var id := nextId;
        rows := rows[id := row];
        nextId := nextId + 1;
        r := Ok((id, true));
      } else if |matches| == 1 {
        var id :| id in matches;
        SingleMember(matches, id, found.id);
        r := Ok((id, false));
      } else {
        TwoMembers(matches);
        r := Err(MultipleObjectsReturned);
      }
    }

    /** `create_or_update_reaction`: 404 for an unknown news id; otherwise the one
        reaction of (user, news) is created or updated, with 201 exactly when it was
        created. */
    method CreateOrUpdateReaction(user: UserId, newsId: NewsId, love: Option<bool>, comment: Option<string>, now: int)
      returns (status: int)
      requires Valid()
      modifies this
      ensures Valid()
      ensures rows == old(rows) && nextId == old(nextId)
      ensures newsId !in rows ==> status == HTTP_404_NOT_FOUND && reactions == old(reactions)
      ensures newsId in rows ==>
        var key := (user, newsId);
        var prev := if key in old(reactions) then Some(old(reactions)[key]) else None;
        && status == (if prev.None? then HTTP_201_CREATED else HTTP_200_OK)
        && reactions == old(reactions)[key := Upserted(prev, love, comment, now)]
    {
      if newsId !in rows {
        return HTTP_404_NOT_FOUND;
      }
      var key := (user, newsId);
      var created := key !in reactions;
      if created {
        reactions := reactions[key := Reaction(false, None, now)];
      }
      var reaction := reactions[key];
      reaction := reaction.(love := love.GetOr(false));
      if comment.Some? {
        reaction := reaction.(comment := comment);
      }
      reactions := reactions[key := reaction];
      status := if created then HTTP_201_CREATED else HTTP_200_OK;
    }

    /** `delete_news`: 404 for an unknown id; otherwise the row and its reactions go. */
    method DeleteNews(id: NewsId) returns (status: int)
      requires Valid()
      modifies this
      ensures Valid()
      ensures nextId == old(nextId)
      ensures id !in old(rows) ==> status == HTTP_404_NOT_FOUND && rows == old(rows) && reactions == old(reactions)
      ensures id in old(rows) ==>
        && status == HTTP_204_NO_CONTENT
        && rows == old(rows) - {id}
        && reactions == WithoutNews(old(reactions), id)
    {
      if id !in rows {
        return HTTP_404_NOT_FOUND;
      }
      rows := rows - {id};
      reactions := WithoutNews(reactions, id);
      status := HTTP_204_NO_CONTENT;
    }

    /** Deleting a user removes that user's reactions and nothing else here. */
    method DeleteUser(user: UserId)
      requires Valid()
      modifies this
      ensures Valid()
      ensures rows == old(rows) && nextId == old(nextId)
      ensures reactions == WithoutUser(old(reactions), user)
    {
      reactions := WithoutUser(reactions, user);
    }
  }

  // ---------------------------------------------------------------------------

  /** Once a title has been inserted, the lookup finds that row: a second
      `get_or_create` with the same title returns it with `created` False. */
  lemma InsertedIsFound(rows: map<NewsId, News>, id: NewsId, title: string, row: News)
    requires MatchTitle(rows, title).Missing? && id !in rows && TitleIs(row, title)
    ensures MatchTitle(rows[id := row], title) == One(id)
  {
    var rows' := rows[id := row];
    var m := Matches(rows', title);
    assert m == {id};
    assert |m| == 1;
  }

  /** Inserting a row with a different title does not change what a lookup finds. */
  lemma InsertOtherTitle(rows: map<NewsId, News>, id: NewsId, title: string, row: News)
    requires id !in rows && !TitleIs(row, title)
    ensures Matches(rows[id := row], title) == Matches(rows, title)
    ensures MatchTitle(rows[id := row], title) == MatchTitle(rows, title)
  {
    assert Matches(rows[id := row], title) == Matches(rows, title);
  }

  /** Upserting twice with the same request gives what upserting once gave. */
  lemma UpsertIdempotent(prev: Option<Reaction>, love: Option<bool>, comment: Option<string>, now: int, later: int)
    ensures Upserted(Some(Upserted(prev, love, comment, now)), love, comment, later) == Upserted(prev, love, comment, now)
  {
  }
}
