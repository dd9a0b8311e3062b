/**
 * The API server as a state machine: the store's five tables plus whether the
 * store answers at all, and one function per route taking the state and the
 * request to a status, a JSON body and the next state.
 */
module Server {
  import opened Optional
  import opened JsValues
  import opened Tables
  import opened Listing
  import opened Resource
  import opened Entities

  /** The store. `online` is false when the database file could not be opened
      or its tables created: the process keeps serving, and every query fails. */
  datatype State = State(
    online: bool,
    products: Table<Product>,
    posts: Table<Post>,
    projects: Table<Project>,
    messages: Table<Message>,
    subscribers: Table<Subscriber>)

  /** `email TEXT NOT NULL UNIQUE`: no two subscribers share an email. */
  predicate UniqueEmails(t: Table<Subscriber>) {
    forall a, b :: a in t.rows && b in t.rows && t.rows[a].data.email == t.rows[b].data.email ==> a == b
  }

  /** What the schema guarantees of every reachable state. */
  predicate Consistent(s: State) {
    && Tables.Valid(s.products) && Tables.Valid(s.posts) && Tables.Valid(s.projects)
    && Tables.Valid(s.messages) && Tables.Valid(s.subscribers)
    && UniqueEmails(s.subscribers)
  }

  /** The five tables just created by `CREATE TABLE IF NOT EXISTS`. */
  function Fresh(online: bool): (s: State)
    ensures Consistent(s)
    ensures |s.products.rows| == |s.posts.rows| == |s.projects.rows| == 0
    ensures |s.messages.rows| == |s.subscribers.rows| == 0
  {
    State(online, Empty(), Empty(), Empty(), Empty(), Empty())
  }

  const ProductNames := Names("product", "products", "Product")
  const PostNames := Names("post", "posts", "Post")
  const ProjectNames := Names("project", "projects", "Project")
  const MessageNames := Names("message", "messages", "Message")
  const SubscriberNames := Names("subscriber", "subscribers", "Subscriber")

  /** `GET /api/stats`. */
  datatype Counts = Counts(products: nat, posts: nat, projects: nat, messages: nat, subscribers: nat)

  /** Every JSON body the API sends, by the entity it concerns. */
  datatype Body =
    | ProductReply(product: Payload<Row<ProductView>>)
    | PostReply(post: Payload<Row<Post>>)
    | ProjectReply(project: Payload<Row<ProjectView>>)
    | MessageReply(message: Payload<Row<Message>>)
    | SubscriberReply(subscriber: Payload<Row<Subscriber>>)
    | StatsReply(stats: Payload<Counts>)
    | HealthReply(status: string, timestamp: nat)

  datatype Reply = Reply(status: nat, body: Body, state: State)

  function Identity<T>(x: T): T {
    x
  }

  // ---------------------------------------------------------------------
  // Products, posts and projects

  function ListProducts(s: State, limit: Option<string>): Reply
    requires Consistent(s)
  {
    var o := ListAction(s.online, s.products, limit, ProductNames, ViewProduct);
    Reply(o.status, ProductReply(o.body), s)
  }

  function GetProduct(s: State, id: int): Reply
    requires Consistent(s)
  {
    var o := GetAction(s.online, s.products, id, ProductNames, ViewProduct);
    Reply(o.status, ProductReply(o.body), s)
  }

  function CreateProduct(s: State, b: ProductBody, now: nat): Reply
    requires Consistent(s)
  {
    var o := CreateAction(s.online, s.products, ProductRow(b, now), now, ProductNames);
    Reply(o.status, ProductReply(o.body), s.(products := o.table))
  }

  function UpdateProduct(s: State, id: int, b: ProductBody, now: nat): Reply
    requires Consistent(s)
  {
    var o := UpdateAction(s.online, s.products, id, ProductRow(b, now), ProductNames);
    Reply(o.status, ProductReply(o.body), s.(products := o.table))
  }

  function DeleteProduct(s: State, id: int): Reply
    requires Consistent(s)
  {
    var o := DeleteAction(s.online, s.products, id, ProductNames);
    Reply(o.status, ProductReply(o.body), s.(products := o.table))
  }

  function ListPosts(s: State, limit: Option<string>): Reply
    requires Consistent(s)
  {
    var o := ListAction(s.online, s.posts, limit, PostNames, Identity);
    Reply(o.status, PostReply(o.body), s)
  }

  function GetPost(s: State, id: int): Reply
    requires Consistent(s)
  {
    var o := GetAction(s.online, s.posts, id, PostNames, Identity);
    Reply(o.status, PostReply(o.body), s)
  }

  function CreatePost(s: State, b: PostBody, now: nat): Reply
    requires Consistent(s)
  {
    var o := CreateAction(s.online, s.posts, PostRow(b, now), now, PostNames);
    Reply(o.status, PostReply(o.body), s.(posts := o.table))
  }

  function UpdatePost(s: State, id: int, b: PostBody, now: nat): Reply
    requires Consistent(s)
  {
    var o := UpdateAction(s.online, s.posts, id, PostRow(b, now), PostNames);
    Reply(o.status, PostReply(o.body), s.(posts := o.table))
  }

  function DeletePost(s: State, id: int): Reply
    requires Consistent(s)
  {
    var o := DeleteAction(s.online, s.posts, id, PostNames);
    Reply(o.status, PostReply(o.body), s.(posts := o.table))
  }

  function ListProjects(s: State, limit: Option<string>): Reply
    requires Consistent(s)
  {
    var o := ListAction(s.online, s.projects, limit, ProjectNames, ViewProject);
    Reply(o.status, ProjectReply(o.body), s)
  }

  function GetProject(s: State, id: int): Reply
    requires Consistent(s)
  {
    var o := GetAction(s.online, s.projects, id, ProjectNames, ViewProject);
    Reply(o.status, ProjectReply(o.body), s)
  }

  function CreateProject(s: State, b: ProjectBody, now: nat): Reply
    requires Consistent(s)
  {
    var o := CreateAction(s.online, s.projects, ProjectRow(b, now), now, ProjectNames);
    Reply(o.status, ProjectReply(o.body), s.(projects := o.table))
  }

  function UpdateProject(s: State, id: int, b: ProjectBody, now: nat): Reply
    requires Consistent(s)
  {
    var o := UpdateAction(s.online, s.projects, id, ProjectRow(b, now), ProjectNames);
    Reply(o.status, ProjectReply(o.body), s.(projects := o.table))
  }

  function DeleteProject(s: State, id: int): Reply
    requires Consistent(s)
  {
    var o := DeleteAction(s.online, s.projects, id, ProjectNames);
    Reply(o.status, ProjectReply(o.body), s.(projects := o.table))
  }

  // ---------------------------------------------------------------------
  // Contact messages

  /** The contact form's check: all four fields truthy. */
  predicate CompleteContact(b: ContactBody) {
    Truthy(b.name) && Truthy(b.email) && Truthy(b.subject) && Truthy(b.message)
  }

  /** `POST /api/contact`: the fields are checked before the store is
      touched, so an incomplete form is a 400 even when the store is down. */
  function Contact(s: State, b: ContactBody, now: nat): (r: Reply)
    requires Consistent(s)
    ensures Consistent(r.state)
    ensures !CompleteContact(b) ==>
      r.status == 400 && r.body == MessageReply(Fail("All fields are required")) && r.state == s
    ensures CompleteContact(b) && !s.online ==>
      r.status == 500 && r.body == MessageReply(Fail("Failed to send message")) && r.state == s
    ensures CompleteContact(b) && s.online ==>
      && r.status == 201 && r.body == MessageReply(Done("Message sent successfully"))
      && r.state == s.(messages := r.state.messages)
      && s.messages.nextId !in s.messages.rows
      && r.state.messages.rows == s.messages.rows[s.messages.nextId :=
           Entry(Message(b.name.value, b.email.value, b.subject.value, b.message.value), now)]
  {
    if !CompleteContact(b) then Reply(400, MessageReply(Fail("All fields are required")), s)
    else if !s.online then Reply(500, MessageReply(Fail("Failed to send message")), s)
    else
      var (t, _) := Insert(s.messages, Message(b.name.value, b.email.value, b.subject.value, b.message.value), now);
      Reply(201, MessageReply(Done("Message sent successfully")), s.(messages := t))
  }

  /** `GET /api/messages`: every message, newest first, no limit. */
  function ListMessages(s: State): (r: Reply)
    requires Consistent(s)
    ensures r.state == s
    ensures !s.online ==> r.status == 500 && r.body == MessageReply(Fail("Failed to fetch messages"))
    ensures s.online ==>
      && r.status == 200 && r.body.MessageReply? && r.body.message.Items?
      && |r.body.message.items| == |s.messages.rows|
      && NewestFirst(r.body.message.items) && DistinctIds(r.body.message.items)
      && forall k :: 0 <= k < |r.body.message.items| ==> Holds(s.messages, r.body.message.items[k])
  {
    var o := ListAction(s.online, s.messages, None, MessageNames, Identity);
    assert "Failed to fetch " + MessageNames.plural == "Failed to fetch messages";
    assert Bounded(|s.messages.rows|, RowLimit(None)) == |s.messages.rows|;
    Reply(o.status, MessageReply(o.body), s)
  }

  // ---------------------------------------------------------------------
  // Newsletter subscribers

  /** The subscribe form's check: a truthy email containing an `@`. */
  predicate AcceptableEmail(email: Option<string>) {
    Truthy(email) && '@' in email.value
  }

  /** Some subscriber already has `email` (compared exactly, as SQLite's
      default collation does). */
  predicate Subscribed(t: Table<Subscriber>, email: string) {
    exists id :: id in t.rows && t.rows[id].data.email == email
  }

  /** `POST /api/subscribe`: the email is checked before the store is touched;
      an email already stored breaks the UNIQUE constraint, which the handler
      reports as 409. */
  function Subscribe(s: State, email: Option<string>, now: nat): (r: Reply)
    requires Consistent(s)
    ensures Consistent(r.state)
    ensures !AcceptableEmail(email) ==>
      r.status == 400 && r.body == SubscriberReply(Fail("Valid email is required")) && r.state == s
    ensures AcceptableEmail(email) && !s.online ==>
      r.status == 500 && r.body == SubscriberReply(Fail("Failed to subscribe")) && r.state == s
    ensures AcceptableEmail(email) && s.online && Subscribed(s.subscribers, email.value) ==>
      r.status == 409 && r.body == SubscriberReply(Fail("Email already subscribed")) && r.state == s
    ensures AcceptableEmail(email) && s.online && !Subscribed(s.subscribers, email.value) ==>
      && r.status == 201 && r.body == SubscriberReply(Done("Subscribed successfully"))
      && r.state == s.(subscribers := r.state.subscribers)
      && s.subscribers.nextId !in s.subscribers.rows
      && r.state.subscribers.rows == s.subscribers.rows[s.subscribers.nextId := Entry(Subscriber(email.value), now)]
  {
    if !AcceptableEmail(email) then Reply(400, SubscriberReply(Fail("Valid email is required")), s)
    else if !s.online then Reply(500, SubscriberReply(Fail("Failed to subscribe")), s)
    else if Subscribed(s.subscribers, email.value) then
      Reply(409, SubscriberReply(Fail("Email already subscribed")), s)
    else
      var (t, _) := Insert(s.subscribers, Subscriber(email.value), now);
      Reply(201, SubscriberReply(Done("Subscribed successfully")), s.(subscribers := t))
  }

  /** `GET /api/subscribers`: every subscriber, newest first, no limit. */
  function ListSubscribers(s: State): (r: Reply)
    requires Consistent(s)
    ensures r.state == s
    ensures !s.online ==> r.status == 500 && r.body == SubscriberReply(Fail("Failed to fetch subscribers"))
    ensures s.online ==>
      && r.status == 200 && r.body.SubscriberReply? && r.body.subscriber.Items?
      && |r.body.subscriber.items| == |s.subscribers.rows|
      && NewestFirst(r.body.subscriber.items) && DistinctIds(r.body.subscriber.items)
      && forall k :: 0 <= k < |r.body.subscriber.items| ==> Holds(s.subscribers, r.body.subscriber.items[k])
  {
    var o := ListAction(s.online, s.subscribers, None, SubscriberNames, Identity);
    assert "Failed to fetch " + SubscriberNames.plural == "Failed to fetch subscribers";
    assert Bounded(|s.subscribers.rows|, RowLimit(None)) == |s.subscribers.rows|;
    Reply(o.status, SubscriberReply(o.body), s)
  }

  // ---------------------------------------------------------------------
  // Statistics and health

  /** `GET /api/stats`: one `COUNT(*)` per table. */
  function Stats(s: State): (r: Reply)
    ensures r.state == s
    ensures !s.online ==> r.status == 500 && r.body == StatsReply(Fail("Failed to fetch statistics"))
    ensures s.online ==> r.status == 200 && r.body == StatsReply(Item(Counts(|s.products.rows|,
      |s.posts.rows|, |s.projects.rows|, |s.messages.rows|, |s.subscribers.rows|)))
  {
    if !s.online then Reply(500, StatsReply(Fail("Failed to fetch statistics")), s)
    else
      Reply(200, StatsReply(Item(Counts(Count(s.products), Count(s.posts), Count(s.projects),
                                        Count(s.messages), Count(s.subscribers)))), s)
  }

  /** `GET /api/health`: answers without touching the store. */
  function Health(s: State, now: nat): (r: Reply)
    ensures r.status == 200 && r.body.HealthReply? && r.body.status == "OK"
    ensures r.body.timestamp == now && r.state == s
  {
    Reply(200, HealthReply("OK", now), s)
  }

  // ---------------------------------------------------------------------
  // Routing

  datatype Request =
    | GetHealth
    | GetProducts(limit: Option<string>)
    | GetProductById(id: int)
    | PostProducts(product: ProductBody)
    | PutProductById(id: int, product: ProductBody)
    | DeleteProductById(id: int)
    | GetPosts(limit: Option<string>)
    | GetPostById(id: int)
    | PostPosts(post: PostBody)
    | PutPostById(id: int, post: PostBody)
    | DeletePostById(id: int)
    | GetProjects(limit: Option<string>)
    | GetProjectById(id: int)
    | PostProjects(project: ProjectBody)
    | PutProjectById(id: int, project: ProjectBody)
    | DeleteProjectById(id: int)
    | PostContact(contact: ContactBody)
    | GetMessages
    | PostSubscribe(email: Option<string>)
    | GetSubscribers
    | GetStats

  /** The ids a table will hand out never go down. */
  predicate CountersGrow(s: State, s': State) {
    && s.products.nextId <= s'.products.nextId
    && s.posts.nextId <= s'.posts.nextId
    && s.projects.nextId <= s'.projects.nextId
    && s.messages.nextId <= s'.messages.nextId
    && s.subscribers.nextId <= s'.subscribers.nextId
  }

  /** One request, served at time `now`. */
  function Handle(s: State, req: Request, now: nat): (r: Reply)
    requires Consistent(s)
    ensures Consistent(r.state)
    ensures r.state.online == s.online
    ensures CountersGrow(s, r.state)
  {
    match req
    case GetHealth => Health(s, now)
    case GetProducts(limit) => ListProducts(s, limit)
    case GetProductById(id) => GetProduct(s, id)
    case PostProducts(b) => CreateProduct(s, b, now)
    case PutProductById(id, b) => UpdateProduct(s, id, b, now)
    case DeleteProductById(id) => DeleteProduct(s, id)
    case GetPosts(limit) => ListPosts(s, limit)
    case GetPostById(id) => GetPost(s, id)
    case PostPosts(b) => CreatePost(s, b, now)
    case PutPostById(id, b) => UpdatePost(s, id, b, now)
    case DeletePostById(id) => DeletePost(s, id)
    case GetProjects(limit) => ListProjects(s, limit)
    case GetProjectById(id) => GetProject(s, id)
    case PostProjects(b) => CreateProject(s, b, now)
    case PutProjectById(id, b) => UpdateProject(s, id, b, now)
    case DeleteProjectById(id) => DeleteProject(s, id)
    case PostContact(b) => Contact(s, b, now)
    case GetMessages => ListMessages(s)
    case PostSubscribe(email) => Subscribe(s, email, now)
    case GetSubscribers => ListSubscribers(s)
    case GetStats => Stats(s)
  }

  /** A request together with the clock reading when it is served. */
  datatype Call = Call(request: Request, now: nat)

  /** Serves the calls one after another. */
  function Run(s: State, calls: seq<Call>): (s': State)
    requires Consistent(s)
    ensures Consistent(s')
    decreases |calls|
  {
    if calls == [] then s else Run(Handle(s, calls[0].request, calls[0].now).state, calls[1..])
  }

  // ---------------------------------------------------------------------
  // Seeding

  /** The demo rows inserted into empty tables at startup. */
  datatype Catalog = Catalog(products: seq<ProductBody>, posts: seq<PostBody>, projects: seq<ProjectBody>)

  /** The number of rows before the first that would put NULL into a NOT NULL
      column; all of them when there is none. */
  function FirstMissing<R>(rows: seq<Option<R>>): (n: nat)
    ensures n <= |rows|
    ensures forall j :: 0 <= j < n ==> rows[j].Some?
    ensures n < |rows| ==> rows[n].None?
  {
    if rows == [] || rows[0].None? then 0 else 1 + FirstMissing(rows[1..])
  }

  /** `t2` is `t` with the rows before the first incomplete one of `rows`
      appended in order under the ids that follow the counter: the rows
      already there stay as they were, and nothing else appears. */
  ghost predicate Appended<R>(t: Table<R>, t2: Table<R>, rows: seq<Option<R>>, now: nat) {
    && t2.nextId == t.nextId + FirstMissing(rows)
    && (forall id :: t.nextId <= id < t2.nextId ==>
          id in t2.rows && t2.rows[id] == Entry(rows[id - t.nextId].value, now))
    && (forall id :: id in t.rows ==> id in t2.rows && t2.rows[id] == t.rows[id])
    && (forall id :: id in t2.rows ==> id in t.rows || t.nextId <= id)
  }

  /** One step of `InsertAll`: the first row under the counter, then the
      rest from the next id on. */
  lemma InsertAllStep<R>(t: Table<R>, t': Table<R>, t2: Table<R>, rows: seq<Option<R>>, now: nat)
    requires rows != [] && rows[0].Some? && t.nextId !in t.rows
    requires t'.nextId == t.nextId + 1 && t'.rows == t.rows[t.nextId := Entry(rows[0].value, now)]
    requires Appended(t', t2, rows[1..], now)
    ensures Appended(t, t2, rows, now)
  {
    assert FirstMissing(rows) == 1 + FirstMissing(rows[1..]);
    forall id | t.nextId <= id < t2.nextId
      ensures id in t2.rows && t2.rows[id] == Entry(rows[id - t.nextId].value, now)
    {
      if id > t.nextId {
        assert rows[id - t.nextId] == rows[1..][id - t'.nextId];
      }
    }
  }

  /** Inserts the rows one by one, stopping at the first that would put NULL
      into a NOT NULL column, and reports whether all went in. Earlier inserts
      stay, since each is its own statement; the rows that went in take the
      next ids in order. */
  function InsertAll<R(==)>(t: Table<R>, rows: seq<Option<R>>, now: nat): (r: (Table<R>, bool))
    requires Tables.Valid(t)
    ensures Tables.Valid(r.0)
    ensures r.1 <==> forall k :: 0 <= k < |rows| ==> rows[k].Some?
    ensures r.0.nextId == t.nextId + FirstMissing(rows)
    ensures |r.0.rows| == |t.rows| + FirstMissing(rows)
    decreases |rows|
  {
    if rows == [] then (t, true)
    else if rows[0].None? then (t, false)
    else
      var (t', id) := Insert(t, rows[0].value, now);
      var r := InsertAll(t', rows[1..], now);
      assert r.1 <==> forall k :: 0 <= k < |rows| ==> rows[k].Some? by {
        assert forall k :: 1 <= k < |rows| ==> rows[k] == rows[1..][k - 1];
      }
      r
  }

  /** What `InsertAll` stores: the rows before the first incomplete one, in
      order, under the ids that follow the counter; the rows already there
      stay as they were, and nothing else appears. */
  lemma {:induction false} InsertAllStores<R>(t: Table<R>, rows: seq<Option<R>>, now: nat)
    requires Tables.Valid(t)
    ensures Appended(t, InsertAll(t, rows, now).0, rows, now)
    decreases |rows|
  {
    var t2 := InsertAll(t, rows, now).0;
    if rows == [] || rows[0].None? {
      assert t2 == t;
    } else {
      var (t', _) := Insert(t, rows[0].value, now);
      assert t2 == InsertAll(t', rows[1..], now).0;
      InsertAllStores(t', rows[1..], now);
      InsertAllStep(t, t', t2, rows, now);
    }
  }

  /** Seeds one table: only when it holds no row at all. */
  function SeedTable<R(==)>(t: Table<R>, rows: seq<Option<R>>, now: nat): (r: (Table<R>, bool))
    requires Tables.Valid(t)
    ensures Tables.Valid(r.0) && t.nextId <= r.0.nextId
    ensures |t.rows| > 0 ==> r == (t, true)
    ensures |t.rows| == 0 ==> r == InsertAll(t, rows, now)
  {
    if Count(t) == 0 then InsertAll(t, rows, now) else (t, true)
  }

  function ProductSeed(c: seq<ProductBody>, now: nat): seq<Option<Product>> {
    seq(|c|, k requires 0 <= k < |c| => ProductRow(c[k], now))
  }

  function PostSeed(c: seq<PostBody>, now: nat): seq<Option<Post>> {
    seq(|c|, k requires 0 <= k < |c| => PostRow(c[k], now))
  }

  function ProjectSeed(c: seq<ProjectBody>, now: nat): seq<Option<Project>> {
    seq(|c|, k requires 0 <= k < |c| => ProjectRow(c[k], now))
  }

  /** `seedData`: products, then posts, then projects, each only if empty. A
      failing insert ends the whole seeding (one try block around it). When
      the store is down the first count fails and nothing happens. */
  function SeedData(s: State, c: Catalog, now: nat): (r: State)
    requires Consistent(s)
    ensures Consistent(r) && CountersGrow(s, r)
    ensures r.online == s.online && r.messages == s.messages && r.subscribers == s.subscribers
  {
    if !s.online then s
    else
      var (products, productsOk) := SeedTable(s.products, ProductSeed(c.products, now), now);
      if !productsOk then s.(products := products)
      else
        var (posts, postsOk) := SeedTable(s.posts, PostSeed(c.posts, now), now);
        if !postsOk then s.(products := products, posts := posts)
        else
          var (projects, _) := SeedTable(s.projects, ProjectSeed(c.projects, now), now);
          s.(products := products, posts := posts, projects := projects)
  }
}
