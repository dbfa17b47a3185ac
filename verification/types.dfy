/** The record shapes of src/types/index.ts: users, articles and their status,
    plus the id-based lookups and removals every slice and page uses. */
module Types {
  import opened Common

  datatype Role = Admin | Employee

  /** The string a role is stored and compared as. */
  function RoleName(r: Role): string {
    match r
    case Admin => "admin"
    case Employee => "employee"
  }

  datatype Status = Draft | Pending | Approved | Rejected

  function StatusName(s: Status): string {
    match s
    case Draft => "draft"
    case Pending => "pending"
    case Approved => "approved"
    case Rejected => "rejected"
  }

  datatype Author = Author(id: string, name: string)

  /** Timestamps are kept as the opaque ISO strings the source stores. */
  datatype Article = Article(
    id: string,
    title: string,
    content: string,
    excerpt: string,
    imageUrl: Option<string>,
    category: string,
    author: Author,
    status: Status,
    createdAt: string,
    updatedAt: string,
    publishedAt: Option<string>,
    rejectionReason: Option<string>,
    views: Option<int>)

  datatype User = User(
    id: string,
    email: string,
    name: string,
    role: Role,
    createdAt: string,
    isBlocked: Option<bool>)

  datatype Category = Category(id: string, name: string, slug: string, color: string)

  /** The ids of a list of articles, in order. */
  function Ids(xs: seq<Article>): (r: seq<string>)
    ensures |r| == |xs|
    ensures forall k :: 0 <= k < |xs| ==> r[k] == xs[k].id
  {
    seq(|xs|, k requires 0 <= k < |xs| => xs[k].id)
  }

  /** No two articles share an id. */
  predicate DistinctIds(xs: seq<Article>) {
    forall p, q :: 0 <= p < q < |xs| ==> xs[p].id != xs[q].id
  }

  /** `xs.findIndex(a => a.id === id)`: the first position holding `id`, or -1. */
  function IndexOfId(xs: seq<Article>, id: string): (r: int)
    ensures -1 <= r < |xs|
    ensures r >= 0 ==> xs[r].id == id
    ensures forall k :: 0 <= k < |xs| && (r == -1 || k < r) ==> xs[k].id != id
  {
    IndexOfIdFrom(xs, id, 0)
  }

  /** The search of `IndexOfId` from position `from` on. */
  function IndexOfIdFrom(xs: seq<Article>, id: string, from: nat): (r: int)
    requires from <= |xs|
    ensures r == -1 || from <= r < |xs|
    ensures r >= 0 ==> xs[r].id == id
    ensures forall k :: from <= k < |xs| && (r == -1 || k < r) ==> xs[k].id != id
    decreases |xs| - from
  {
    if from == |xs| then -1
    else if xs[from].id == id then from
    else IndexOfIdFrom(xs, id, from + 1)
  }

  /** A position is the answer of `IndexOfId` when no earlier article shares its id. */
  lemma IndexOfIdAt(xs: seq<Article>, i: nat)
    requires i < |xs|
    requires forall k :: 0 <= k < i ==> xs[k].id != xs[i].id
    ensures IndexOfId(xs, xs[i].id) == i
  {
  }

  /** `xs.filter(a => a.id !== id)`: every article with that id removed, the
      others kept in order. */
  function WithoutArticle(xs: seq<Article>, id: string): (r: seq<Article>)
    ensures |r| <= |xs|
    ensures forall k :: 0 <= k < |r| ==> r[k] in xs && r[k].id != id
    ensures forall k :: 0 <= k < |xs| && xs[k].id != id ==> xs[k] in r
  {
    Filter(xs, (a: Article) => a.id != id)
  }

  /** Removing an id that is not present changes nothing. */
  lemma WithoutAbsentArticle(xs: seq<Article>, id: string)
    requires IndexOfId(xs, id) == -1
    ensures WithoutArticle(xs, id) == xs
  {
    FilterKeepsAll(xs, (a: Article) => a.id != id);
  }

  /** The removal of several ids one after another, as a page's `forEach` does it. */
  function WithoutArticles(xs: seq<Article>, ids: seq<string>): (r: seq<Article>)
    ensures |r| <= |xs|
    ensures forall k :: 0 <= k < |r| ==> r[k] in xs && r[k].id !in ids
    ensures forall k :: 0 <= k < |xs| && xs[k].id !in ids ==> xs[k] in r
    decreases |ids|
  {
    if |ids| == 0 then xs
    else WithoutArticles(WithoutArticle(xs, ids[0]), ids[1..])
  }

  /** `users.filter(u => u.id !== id)`. */
  function WithoutUser(xs: seq<User>, id: string): (r: seq<User>)
    ensures |r| <= |xs|
    ensures forall k :: 0 <= k < |r| ==> r[k] in xs && r[k].id != id
    ensures forall k :: 0 <= k < |xs| && xs[k].id != id ==> xs[k] in r
  {
    Filter(xs, (u: User) => u.id != id)
  }
}
