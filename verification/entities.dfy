/**
 * The five entities as their tables store them, the request bodies that
 * create or replace them, and the shapes the handlers send back. A column
 * declared NOT NULL is a plain string; a nullable one is an Option. The
 * `features` and `technologies` columns hold a JSON-serialised list of
 * strings; serialising and parsing are modelled as an exact round trip, so
 * the column holds the list itself.
 */
module Entities {
  import opened Optional
  import opened JsValues

  datatype Product = Product(
    name: string, description: string, category: string,
    icon: Option<string>, features: Option<seq<string>>, updatedAt: nat)

  datatype Post = Post(
    title: string, content: string, excerpt: Option<string>, category: string,
    icon: Option<string>, author: Option<string>, updatedAt: nat)

  datatype Project = Project(
    name: string, description: string, category: string,
    icon: Option<string>, technologies: Option<seq<string>>, client: Option<string>, updatedAt: nat)

  datatype Message = Message(name: string, email: string, subject: string, message: string)

  datatype Subscriber = Subscriber(email: string)

  /** Request bodies: every field may be missing (`undefined`) or `null`. */
  datatype ProductBody = ProductBody(
    name: Option<string>, description: Option<string>, category: Option<string>,
    icon: Option<string>, features: Option<seq<string>>)

  datatype PostBody = PostBody(
    title: Option<string>, content: Option<string>, excerpt: Option<string>,
    category: Option<string>, icon: Option<string>, author: Option<string>)

  datatype ProjectBody = ProjectBody(
    name: Option<string>, description: Option<string>, category: Option<string>,
    icon: Option<string>, technologies: Option<seq<string>>, client: Option<string>)

  datatype ContactBody = ContactBody(
    name: Option<string>, email: Option<string>, subject: Option<string>, message: Option<string>)

  /** A product or project as the handlers return it: the array column parsed. */
  datatype ProductView = ProductView(
    name: string, description: string, category: string,
    icon: Option<string>, features: seq<string>, updatedAt: nat)

  datatype ProjectView = ProjectView(
    name: string, description: string, category: string,
    icon: Option<string>, technologies: seq<string>, client: Option<string>, updatedAt: nat)

  /** The array column as read back: `col ? JSON.parse(col) : []`. */
  function DecodeList(column: Option<seq<string>>): seq<string> {
    if column.Some? then column.value else []
  }

  /** The array column as written: `JSON.stringify(xs || [])`, which is never
      NULL, so reading it back gives the submitted list, or `[]` when none was
      submitted. */
  function EncodeList(xs: Option<seq<string>>): (column: Option<seq<string>>)
    ensures column.Some?
    ensures DecodeList(column) == OrEmpty(xs)
  {
    Some(OrEmpty(xs))
  }

  /** The product row an INSERT or UPDATE binds, stamped `now`; None when a
      NOT NULL column (name, description, category) would be NULL. The icon is
      bound as given, so a missing icon is stored as NULL, not the column's
      default. */
  function ProductRow(b: ProductBody, now: nat): (r: Option<Product>)
    ensures r.Some? <==> b.name.Some? && b.description.Some? && b.category.Some?
    ensures r.Some? ==>
      && r.value.name == b.name.value && r.value.description == b.description.value
      && r.value.category == b.category.value && r.value.icon == b.icon
      && DecodeList(r.value.features) == OrEmpty(b.features) && r.value.updatedAt == now
  {
    if b.name.None? || b.description.None? || b.category.None? then None
    else Some(Product(b.name.value, b.description.value, b.category.value, b.icon, EncodeList(b.features), now))
  }

  /** The post row an INSERT or UPDATE binds; title, content and category are
      NOT NULL, the rest are stored as given. */
  function PostRow(b: PostBody, now: nat): (r: Option<Post>)
    ensures r.Some? <==> b.title.Some? && b.content.Some? && b.category.Some?
    ensures r.Some? ==>
      && r.value.title == b.title.value && r.value.content == b.content.value
      && r.value.category == b.category.value && r.value.excerpt == b.excerpt
      && r.value.icon == b.icon && r.value.author == b.author && r.value.updatedAt == now
  {
    if b.title.None? || b.content.None? || b.category.None? then None
    else Some(Post(b.title.value, b.content.value, b.excerpt, b.category.value, b.icon, b.author, now))
  }

  /** The project row an INSERT or UPDATE binds; name, description and
      category are NOT NULL. */
  function ProjectRow(b: ProjectBody, now: nat): (r: Option<Project>)
    ensures r.Some? <==> b.name.Some? && b.description.Some? && b.category.Some?
    ensures r.Some? ==>
      && r.value.name == b.name.value && r.value.description == b.description.value
      && r.value.category == b.category.value && r.value.icon == b.icon && r.value.client == b.client
      && DecodeList(r.value.technologies) == OrEmpty(b.technologies) && r.value.updatedAt == now
  {
    if b.name.None? || b.description.None? || b.category.None? then None
    else Some(Project(b.name.value, b.description.value, b.category.value, b.icon,
                      EncodeList(b.technologies), b.client, now))
  }

  function ViewProduct(p: Product): ProductView {
    ProductView(p.name, p.description, p.category, p.icon, DecodeList(p.features), p.updatedAt)
  }

  function ViewProject(p: Project): ProjectView {
    ProjectView(p.name, p.description, p.category, p.icon, DecodeList(p.technologies), p.client, p.updatedAt)
  }
}
