/**
 * Properties of the API that relate several requests: what a create makes a
 * later get return, what a second subscription with the same email meets,
 * that ids are never handed out twice over any sequence of requests, that the
 * statistics agree with the lists, and that seeding is idempotent.
 */
module ServerProps {
  import opened Optional
  import opened JsValues
  import opened Tables
  import opened Listing
  import opened Resource
  import opened Entities
  import opened Server

  /** A product created with 201 reads back with the submitted fields, its
      features as submitted or `[]` when none were, and the creation time. */
  lemma ProductRoundTrip(s: State, b: ProductBody, now: nat)
    requires Consistent(s)
    requires CreateProduct(s, b, now).status == 201
    ensures var c := CreateProduct(s, b, now);
      var g := GetProduct(c.state, c.body.product.id);
      && g.status == 200 && g.body.product.Item?
      && g.body.product.item.id == c.body.product.id
      && g.body.product.item.data.name == b.name.value
      && g.body.product.item.data.description == b.description.value
      && g.body.product.item.data.category == b.category.value
      && g.body.product.item.data.icon == b.icon
      && g.body.product.item.data.features == OrEmpty(b.features)
      && g.body.product.item.createdAt == now
  {
  }

  /** A project created with 201 reads back with the submitted fields and its
      technologies as submitted, or `[]` when none were. */
  lemma ProjectRoundTrip(s: State, b: ProjectBody, now: nat)
    requires Consistent(s)
    requires CreateProject(s, b, now).status == 201
    ensures var c := CreateProject(s, b, now);
      var g := GetProject(c.state, c.body.project.id);
      && g.status == 200 && g.body.project.Item?
      && g.body.project.item.data.name == b.name.value
      && g.body.project.item.data.client == b.client
      && g.body.project.item.data.technologies == OrEmpty(b.technologies)
      && g.body.project.item.createdAt == now
  {
  }

  /** A post created with 201 reads back exactly as submitted, the optional
      excerpt, icon and author included (as NULL when left out). */
  lemma PostRoundTrip(s: State, b: PostBody, now: nat)
    requires Consistent(s)
    requires CreatePost(s, b, now).status == 201
    ensures var c := CreatePost(s, b, now);
      var g := GetPost(c.state, c.body.post.id);
      && g.status == 200 && g.body.post.Item?
      && g.body.post.item.data
         == Post(b.title.value, b.content.value, b.excerpt, b.category.value, b.icon, b.author, now)
  {
  }

  /** A product body missing a NOT NULL field is refused with 500 and stores
      nothing; creation succeeds exactly when the store is up and the three
      required fields are present. */
  lemma ProductCreateNeedsRequiredFields(s: State, b: ProductBody, now: nat)
    requires Consistent(s)
    ensures CreateProduct(s, b, now).status == 201
        <==> s.online && b.name.Some? && b.description.Some? && b.category.Some?
    ensures CreateProduct(s, b, now).status != 201 ==>
      CreateProduct(s, b, now).status == 500 && CreateProduct(s, b, now).state == s
  {
  }

  /** After deleting a product, getting it answers 404. */
  lemma DeleteThenGet(s: State, id: int)
    requires Consistent(s) && s.online
    ensures var d := DeleteProduct(s, id);
      d.status == 200 && GetProduct(d.state, id).status == 404
      && GetProduct(d.state, id).body == ProductReply(Fail("Product not found"))
  {
  }

  /** Updating or deleting a product that does not exist answers 200 and
      changes nothing. */
  lemma MissingProductNoOps(s: State, id: int, b: ProductBody, now: nat)
    requires Consistent(s) && s.online && id !in s.products.rows
    ensures UpdateProduct(s, id, b, now).status == 200 && UpdateProduct(s, id, b, now).state == s
    ensures DeleteProduct(s, id).status == 200 && DeleteProduct(s, id).state == s
  {
  }

  /** A message accepted with 201 shows up in the message list, which has
      grown by exactly one row. */
  lemma ContactThenListed(s: State, b: ContactBody, now: nat)
    requires Consistent(s) && s.online && CompleteContact(b)
    ensures var l := ListMessages(Contact(s, b, now).state);
      && l.status == 200 && l.body.message.Items?
      && |l.body.message.items| == |s.messages.rows| + 1
      && exists k :: 0 <= k < |l.body.message.items|
           && l.body.message.items[k].data == Message(b.name.value, b.email.value, b.subject.value, b.message.value)
           && l.body.message.items[k].createdAt == now
  {
    var t := Contact(s, b, now).state.messages;
    var items := ListMessages(Contact(s, b, now).state).body.message.items;
    DistinctIdsCount(items);
    forall id | id in Ids(items) ensures id in t.rows {
      var k :| 0 <= k < |items| && items[k].id == id;
      assert Shows(t, Identity, items[k]);
    }
    SameSizeSubset(Ids(items), t.rows.Keys);
    assert s.messages.nextId in Ids(items);
    var k :| 0 <= k < |items| && items[k].id == s.messages.nextId;
    assert Shows(t, Identity, items[k]);
  }

  /** The ids of the subscribers with a given email. */
  function EmailIds(t: Table<Subscriber>, email: string): set<int> {
    set id | id in t.rows && t.rows[id].data.email == email
  }

  /** Subscribing the same acceptable email twice: the second attempt meets
      409, and exactly one subscriber has that email afterwards. */
  lemma SubscribeTwice(s: State, email: string, t1: nat, t2: nat)
    requires Consistent(s) && s.online && AcceptableEmail(Some(email))
    ensures var r1 := Subscribe(s, Some(email), t1);
      var r2 := Subscribe(r1.state, Some(email), t2);
      && (r1.status == 201 || r1.status == 409)
      && r2.status == 409 && r2.body == SubscriberReply(Fail("Email already subscribed"))
      && r2.state == r1.state
      && |EmailIds(r2.state.subscribers, email)| == 1
  {
    var r1 := Subscribe(s, Some(email), t1);
    var t := r1.state.subscribers;
    assert Subscribed(t, email) by {
      if !Subscribed(s.subscribers, email) {
        assert t.rows[s.subscribers.nextId].data.email == email;
      }
    }
    var id :| id in t.rows && t.rows[id].data.email == email;
    assert UniqueEmails(t) by {
      if !Subscribed(s.subscribers, email) {
        forall a, b | a in t.rows && b in t.rows && t.rows[a].data.email == t.rows[b].data.email
          ensures a == b
        {
          assert a in s.subscribers.rows || a == s.subscribers.nextId;
          assert b in s.subscribers.rows || b == s.subscribers.nextId;
        }
      }
    }
    forall x | x in EmailIds(t, email) ensures x == id {
      assert t.rows[x].data.email == t.rows[id].data.email;
    }
    assert id in EmailIds(t, email);
    assert EmailIds(t, email) == {id};
  }

  /** The counters only grow along any sequence of requests. */
  lemma {:induction false} RunGrows(s: State, calls: seq<Call>)
    requires Consistent(s)
    ensures CountersGrow(s, Run(s, calls))
    ensures Run(s, calls).online == s.online
    decreases |calls|
  {
    if calls != [] {
      var s1 := Handle(s, calls[0].request, calls[0].now).state;
      RunGrows(s1, calls[1..]);
    }
  }

  /** Ids are never reused: after any sequence of requests, a created product
      gets an id above every id the table had handed out before, including
      ids of rows deleted since. */
  lemma IdsNeverReused(s: State, calls: seq<Call>, b: ProductBody, now: nat, old_id: int)
    requires Consistent(s)
    requires old_id < s.products.nextId
    requires CreateProduct(Run(s, calls), b, now).status == 201
    ensures CreateProduct(Run(s, calls), b, now).body.product.id > old_id
  {
    RunGrows(s, calls);
  }

  /** While the store is up, the statistics count exactly the rows the
      unlimited lists return. */
  lemma StatsMatchLists(s: State)
    requires Consistent(s) && s.online
    ensures Stats(s).body.stats.Item?
    ensures Stats(s).body.stats.item.products == |ListProducts(s, None).body.product.items|
    ensures Stats(s).body.stats.item.posts == |ListPosts(s, None).body.post.items|
    ensures Stats(s).body.stats.item.projects == |ListProjects(s, None).body.project.items|
    ensures Stats(s).body.stats.item.messages == |ListMessages(s).body.message.items|
    ensures Stats(s).body.stats.item.subscribers == |ListSubscribers(s).body.subscriber.items|
  {
  }

  /** A successful create adds one to its table's count and leaves the other
      counts alone; deleting an existing id takes one away. */
  lemma StatsFollowWrites(s: State, b: ProductBody, now: nat, id: int)
    requires Consistent(s) && s.online
    ensures var c := CreateProduct(s, b, now);
      c.status == 201 ==>
        && Stats(c.state).body.stats.item.products == Stats(s).body.stats.item.products + 1
        && Stats(c.state).body.stats.item.posts == Stats(s).body.stats.item.posts
        && Stats(c.state).body.stats.item.projects == Stats(s).body.stats.item.projects
        && Stats(c.state).body.stats.item.messages == Stats(s).body.stats.item.messages
        && Stats(c.state).body.stats.item.subscribers == Stats(s).body.stats.item.subscribers
    ensures id in s.products.rows ==>
      Stats(DeleteProduct(s, id).state).body.stats.item.products == Stats(s).body.stats.item.products - 1
  {
  }

  /** Every row of the catalog fills its NOT NULL columns. */
  predicate CompleteCatalog(c: Catalog) {
    && (forall k :: 0 <= k < |c.products| ==> ProductRow(c.products[k], 0).Some?)
    && (forall k :: 0 <= k < |c.posts| ==> PostRow(c.posts[k], 0).Some?)
    && (forall k :: 0 <= k < |c.projects| ==> ProjectRow(c.projects[k], 0).Some?)
  }

  /** Seeding leaves a table that already has rows untouched. */
  lemma SeedSkipsPopulated(s: State, c: Catalog, now: nat)
    requires Consistent(s)
    ensures |s.products.rows| > 0 ==> SeedData(s, c, now).products == s.products
    ensures |s.posts.rows| > 0 ==> SeedData(s, c, now).posts == s.posts
    ensures |s.projects.rows| > 0 ==> SeedData(s, c, now).projects == s.projects
  {
  }

  /** `t` holds exactly the rows `rows` describes, in order, under the ids from
      `from` on, each created at `now`. */
  ghost predicate StoresInOrder<R>(t: Table<R>, from: int, rows: seq<Option<R>>, now: nat) {
    && (forall id :: id in t.rows <==> from <= id < from + |rows|)
    && (forall id :: from <= id < from + |rows| ==>
          && id in t.rows && t.rows[id].createdAt == now
          && rows[id - from] == Some(t.rows[id].data))
  }

  /** Rows appended to an empty table from its counter on, when all of them
      are complete, are the whole table, in order. */
  lemma FilledInOrder<R>(t: Table<R>, seeded: Table<R>, rows: seq<Option<R>>, now: nat)
    requires |t.rows| == 0
    requires forall k :: 0 <= k < |rows| ==> rows[k].Some?
    requires Tables.Valid(seeded) && Appended(t, seeded, rows, now)
    ensures StoresInOrder(seeded, t.nextId, rows, now)
  {
    assert FirstMissing(rows) == |rows|;
    forall id | t.nextId <= id < t.nextId + |rows|
      ensures id in seeded.rows && seeded.rows[id].createdAt == now
      ensures rows[id - t.nextId] == Some(seeded.rows[id].data)
    {
      assert seeded.rows[id] == Entry(rows[id - t.nextId].value, now);
    }
  }

  /** Seeding an empty table with complete rows stores exactly those rows, in
      catalog order, under the ids from the counter on. */
  lemma SeedTableFills<R>(t: Table<R>, rows: seq<Option<R>>, now: nat)
    requires Tables.Valid(t) && |t.rows| == 0
    requires forall k :: 0 <= k < |rows| ==> rows[k].Some?
    ensures StoresInOrder(SeedTable(t, rows, now).0, t.nextId, rows, now)
  {
    var seeded := InsertAll(t, rows, now).0;
    assert SeedTable(t, rows, now).0 == seeded;
    InsertAllStores(t, rows, now);
    FilledInOrder(t, seeded, rows, now);
  }

  /** The rows a complete catalog seeds are all present, at any time. */
  lemma CompleteSeeds(c: Catalog, now: nat)
    requires CompleteCatalog(c)
    ensures forall k :: 0 <= k < |c.products| ==> ProductSeed(c.products, now)[k].Some?
    ensures forall k :: 0 <= k < |c.posts| ==> PostSeed(c.posts, now)[k].Some?
    ensures forall k :: 0 <= k < |c.projects| ==> ProjectSeed(c.projects, now)[k].Some?
  {
  }

  /** With a complete catalog no table's seeding fails, so each table is
      seeded on its own terms. */
  lemma SeedDataByTable(s: State, c: Catalog, now: nat)
    requires Consistent(s) && s.online && CompleteCatalog(c)
    ensures SeedData(s, c, now).products == SeedTable(s.products, ProductSeed(c.products, now), now).0
    ensures SeedData(s, c, now).posts == SeedTable(s.posts, PostSeed(c.posts, now), now).0
    ensures SeedData(s, c, now).projects == SeedTable(s.projects, ProjectSeed(c.projects, now), now).0
  {
    CompleteSeeds(c, now);
    var ps := ProductSeed(c.products, now);
    var qs := PostSeed(c.posts, now);
    assert SeedTable(s.products, ps, now).1;
    assert SeedTable(s.posts, qs, now).1;
  }

  /** With a complete catalog and the store up, every empty table receives
      its catalog's rows, in catalog order, under consecutive ids from its
      counter: catalog entry `k` is the row the insert binds for it, stored
      under id `nextId + k`. */
  lemma SeedFillsEmpty(s: State, c: Catalog, now: nat)
    requires Consistent(s) && s.online && CompleteCatalog(c)
    ensures |s.products.rows| == 0 ==>
      StoresInOrder(SeedData(s, c, now).products, s.products.nextId, ProductSeed(c.products, now), now)
    ensures |s.posts.rows| == 0 ==>
      StoresInOrder(SeedData(s, c, now).posts, s.posts.nextId, PostSeed(c.posts, now), now)
    ensures |s.projects.rows| == 0 ==>
      StoresInOrder(SeedData(s, c, now).projects, s.projects.nextId, ProjectSeed(c.projects, now), now)
    ensures |s.products.rows| == 0 ==> forall k :: 0 <= k < |c.products| ==>
      && s.products.nextId + k in SeedData(s, c, now).products.rows
      && ProductRow(c.products[k], now) == Some(SeedData(s, c, now).products.rows[s.products.nextId + k].data)
    ensures |s.posts.rows| == 0 ==> forall k :: 0 <= k < |c.posts| ==>
      && s.posts.nextId + k in SeedData(s, c, now).posts.rows
      && PostRow(c.posts[k], now) == Some(SeedData(s, c, now).posts.rows[s.posts.nextId + k].data)
    ensures |s.projects.rows| == 0 ==> forall k :: 0 <= k < |c.projects| ==>
      && s.projects.nextId + k in SeedData(s, c, now).projects.rows
      && ProjectRow(c.projects[k], now) == Some(SeedData(s, c, now).projects.rows[s.projects.nextId + k].data)
  {
    SeedDataByTable(s, c, now);
    CompleteSeeds(c, now);
    var r := SeedData(s, c, now);
    if |s.products.rows| == 0 {
      var seed := ProductSeed(c.products, now);
      SeedTableFills(s.products, seed, now);
      forall k | 0 <= k < |c.products|
        ensures s.products.nextId + k in r.products.rows
        ensures ProductRow(c.products[k], now) == Some(r.products.rows[s.products.nextId + k].data)
      {
        assert seed[k] == ProductRow(c.products[k], now);
      }
    }
    if |s.posts.rows| == 0 {
      var seed := PostSeed(c.posts, now);
      SeedTableFills(s.posts, seed, now);
      forall k | 0 <= k < |c.posts|
        ensures s.posts.nextId + k in r.posts.rows
        ensures PostRow(c.posts[k], now) == Some(r.posts.rows[s.posts.nextId + k].data)
      {
        assert seed[k] == PostRow(c.posts[k], now);
      }
    }
    if |s.projects.rows| == 0 {
      var seed := ProjectSeed(c.projects, now);
      SeedTableFills(s.projects, seed, now);
      forall k | 0 <= k < |c.projects|
        ensures s.projects.nextId + k in r.projects.rows
        ensures ProjectRow(c.projects[k], now) == Some(r.projects.rows[s.projects.nextId + k].data)
      {
        assert seed[k] == ProjectRow(c.projects[k], now);
      }
    }
  }

  /** A seeded table holds as many rows as its catalog. */
  lemma SeedFillsCount(s: State, c: Catalog, now: nat)
    requires Consistent(s) && s.online && CompleteCatalog(c)
    ensures |s.products.rows| == 0 ==> |SeedData(s, c, now).products.rows| == |c.products|
    ensures |s.posts.rows| == 0 ==> |SeedData(s, c, now).posts.rows| == |c.posts|
    ensures |s.projects.rows| == 0 ==> |SeedData(s, c, now).projects.rows| == |c.projects|
  {
    SeedDataByTable(s, c, now);
    CompleteSeeds(c, now);
    assert FirstMissing(ProductSeed(c.products, now)) == |c.products|;
    assert FirstMissing(PostSeed(c.posts, now)) == |c.posts|;
    assert FirstMissing(ProjectSeed(c.projects, now)) == |c.projects|;
  }

  /** Seeding runs inside one `try`: a product the table refuses ends it, and
      the posts and projects tables are left as they were. */
  lemma SeedAbortsOnFailure(s: State, c: Catalog, now: nat, k: nat)
    requires Consistent(s) && |s.products.rows| == 0
    requires k < |c.products| && ProductRow(c.products[k], now).None?
    ensures SeedData(s, c, now).posts == s.posts
    ensures SeedData(s, c, now).projects == s.projects
  {
    assert ProductSeed(c.products, now)[k].None?;
  }

  /** Seeding one table a second time changes nothing: after the first round
      the table either has rows, or the catalog for it is empty. */
  lemma SeedTableTwice<R>(t: Table<R>, rows: seq<Option<R>>, now: nat, later: nat, rows': seq<Option<R>>)
    requires Tables.Valid(t)
    requires forall k :: 0 <= k < |rows| ==> rows[k].Some?
    requires |rows'| == |rows|
    ensures SeedTable(SeedTable(t, rows, now).0, rows', later).0 == SeedTable(t, rows, now).0
  {
    var t1 := SeedTable(t, rows, now).0;
    if |t.rows| == 0 && rows != [] {
      assert |t1.rows| > 0;
    }
  }

  /** Running the seed a second time, with the same complete catalog, changes
      nothing. */
  lemma SeedIdempotent(s: State, c: Catalog, now: nat, later: nat)
    requires Consistent(s) && CompleteCatalog(c)
    ensures SeedData(SeedData(s, c, now), c, later) == SeedData(s, c, now)
  {
    if s.online {
      var s1 := SeedData(s, c, now);
      SeedDataByTable(s, c, now);
      SeedDataByTable(s1, c, later);
      CompleteSeeds(c, now);
      SeedTableTwice(s.products, ProductSeed(c.products, now), now, later, ProductSeed(c.products, later));
      SeedTableTwice(s.posts, PostSeed(c.posts, now), now, later, PostSeed(c.posts, later));
      SeedTableTwice(s.projects, ProjectSeed(c.projects, now), now, later, ProjectSeed(c.projects, later));
    }
  }
}
