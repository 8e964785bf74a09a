/** The abstract state the services work on: the relational tables, the
    `image_labels` join table, the favourites table, the deployment
    configurations and the key/value cache; together with the integrity
    conditions every service operation keeps. */
module Store {
  import opened Results
  import opened Seqs
  import opened Tables
  import opened Models

  /** What a cache key holds: a serialised image listing, or plain text
      (the user id stored under a `blacklist:` key). */
  datatype CacheValue = Listing(items: seq<ImageResponse>) | Text(value: string)

  /** The message PostgreSQL reports when an INSERT or UPDATE would break a
      primary key or unique index. */
  const DuplicateKey := "duplicate key value violates unique constraint"

  /** The message of the ORM's `ErrRecordNotFound`. */
  const RecordNotFound := "record not found"

  datatype Store = Store(
    users: Table<User>,
    images: Table<Image>,
    labels: Table<Label>,
    providers: Table<Provider>,
    /** `image_labels`: (image id, label id); its composite key makes it a set. */
    links: set<(Id, Id)>,
    collections: seq<Collection>,
    deployments: seq<ImageProvider>,
    cache: map<string, CacheValue>,
    /** How many keys the database's UUID generator has handed out. */
    serial: nat)

  /** The result of a service call together with the state it leaves. A
      failed call leaves the state as it found it (its transaction, if any,
      is rolled back). */
  datatype Reply<+T> = Reply(store: Store, result: Result<T>)

  function EmptyTable<V>(): (t: Table<V>)
    ensures t.Valid() && t.byId == map[]
  {
    Table([], map[])
  }

  function EmptyStore(): (s: Store)
    ensures Valid(s)
  {
    Store(EmptyTable(), EmptyTable(), EmptyTable(), EmptyTable(), {}, [], [], map[], 0)
  }

  // ------------------------------------------------------------ favourites

  /** Number of favourite rows for an image. */
  function StarCount(c: seq<Collection>, imageId: Id): nat {
    if c == [] then 0
    else (if c[0].imageId == imageId then 1 else 0) + StarCount(c[1..], imageId)
  }

  lemma {:induction false} StarCountAppend(c: seq<Collection>, x: Collection, imageId: Id)
    ensures StarCount(c + [x], imageId) == StarCount(c, imageId) + (if x.imageId == imageId then 1 else 0)
  {
    if c != [] {
      assert (c + [x])[1..] == c[1..] + [x];
      StarCountAppend(c[1..], x, imageId);
    }
  }

  /** Removing one row that occurs once lowers its image's count by one and
      no other image's count. */
  lemma {:induction false} StarCountWithout(c: seq<Collection>, x: Collection, imageId: Id)
    requires Distinct(c)
    ensures StarCount(Without(c, x), imageId)
         == StarCount(c, imageId) - (if x in c && x.imageId == imageId then 1 else 0)
  {
    if c != [] {
      assert Distinct(c[1..]);
      if c[0] == x {
        assert x !in c[1..];
        assert Without(c, x) == Without(c[1..], x) == c[1..];
      } else {
        StarCountWithout(c[1..], x, imageId);
        assert Without(c, x) == [c[0]] + Without(c[1..], x);
        assert ([c[0]] + Without(c[1..], x))[1..] == Without(c[1..], x);
        assert x in c <==> x in c[1..];
      }
    }
  }

  /** The favourites table with every row of one image removed
      (`DELETE FROM collections WHERE image_id = ?`). */
  function DropImage(c: seq<Collection>, imageId: Id): (r: seq<Collection>)
    ensures forall x :: x in r <==> x in c && x.imageId != imageId
    ensures Distinct(c) ==> Distinct(r)
  {
    if c == [] then []
    else
      var tail := DropImage(c[1..], imageId);
      assert forall x :: x in c <==> x == c[0] || x in c[1..];
      if c[0].imageId == imageId then tail
      else
        assert Distinct(c) ==> Distinct([c[0]] + tail) by {
          if Distinct(c) {
            assert Distinct(c[1..]);
            assert c[0] !in c[1..];
          }
        }
        [c[0]] + tail
  }

  lemma {:induction false} StarCountDropImage(c: seq<Collection>, dropped: Id, imageId: Id)
    ensures StarCount(DropImage(c, dropped), imageId)
         == if dropped == imageId then 0 else StarCount(c, imageId)
  {
    if c != [] {
      StarCountDropImage(c[1..], dropped, imageId);
      if c[0].imageId != dropped {
        assert ([c[0]] + DropImage(c[1..], dropped))[1..] == DropImage(c[1..], dropped);
      }
    }
  }

  /** No row of the favourites table names the image. */
  lemma {:induction false} StarCountZero(c: seq<Collection>, imageId: Id)
    requires forall i :: 0 <= i < |c| ==> c[i].imageId != imageId
    ensures StarCount(c, imageId) == 0
  {
    if c != [] {
      StarCountZero(c[1..], imageId);
    }
  }

  /** The caller has favourited the image; an anonymous caller (empty id)
      never has. */
  predicate Starred(s: Store, userId: Id, imageId: Id) {
    userId != "" && Collection(userId, imageId) in s.collections
  }

  // ---------------------------------------------------------------- labels

  /** The image is linked to a label row with this name. */
  predicate HasLabel(s: Store, imageId: Id, name: string) {
    exists p :: p in s.links && p.0 == imageId && p.1 in s.labels.byId && s.labels.byId[p.1].name == name
  }

  /** The names of the labels linked to an image (what `Preload("Labels")`
      yields). */
  function LabelNames(s: Store, imageId: Id): (names: set<string>)
    ensures forall n :: n in names <==> HasLabel(s, imageId, n)
  {
    set p | p in s.links && p.0 == imageId && p.1 in s.labels.byId :: s.labels.byId[p.1].name
  }

  // ------------------------------------------------------------ integrity

  /** `users.username` carries a unique index. */
  predicate UniqueUsernames(t: Table<User>) {
    forall a, b :: a in t.byId && b in t.byId && a != b ==> t.byId[a].username != t.byId[b].username
  }

  /** `users.email` carries a unique index. */
  predicate UniqueEmails(t: Table<User>) {
    forall a, b :: a in t.byId && b in t.byId && a != b ==> t.byId[a].email != t.byId[b].email
  }

  /** Every stored password went through the `BeforeCreate` hook. */
  predicate CredentialsHashed(t: Table<User>) {
    forall k :: k in t.byId ==> t.byId[k].password.Hashed?
  }

  /** `labels.name` carries a unique index. */
  predicate UniqueLabelNames(t: Table<Label>) {
    forall a, b :: a in t.byId && b in t.byId && a != b ==> t.byId[a].name != t.byId[b].name
  }

  /** Every link joins an existing image and an existing label. */
  predicate LinksWellFormed(links: set<(Id, Id)>, images: Table<Image>, labels: Table<Label>) {
    forall p :: p in links ==> p.0 in images.byId && p.1 in labels.byId
  }

  /** No favourite is recorded twice, and each names an existing image. */
  predicate FavouritesWellFormed(c: seq<Collection>, images: Table<Image>) {
    Distinct(c) && forall i :: 0 <= i < |c| ==> c[i].imageId in images.byId
  }

  /** The star counter of every image equals its number of favourites. */
  predicate StarsMatch(images: Table<Image>, c: seq<Collection>) {
    forall k :: k in images.byId ==> images.byId[k].stars == StarCount(c, k)
  }

  /** At most one deployment configuration per (image, provider). */
  predicate OneConfigPerPair(d: seq<ImageProvider>) {
    forall i, j :: 0 <= i < j < |d| ==>
      d[i].imageId != d[j].imageId || d[i].providerId != d[j].providerId
  }

  predicate Valid(s: Store) {
    && s.users.Valid()
    && s.images.Valid()
    && s.labels.Valid()
    && s.providers.Valid()
    && UniqueUsernames(s.users)
    && UniqueEmails(s.users)
    && CredentialsHashed(s.users)
    && UniqueLabelNames(s.labels)
    && LinksWellFormed(s.links, s.images, s.labels)
    && FavouritesWellFormed(s.collections, s.images)
    && StarsMatch(s.images, s.collections)
    && OneConfigPerPair(s.deployments)
  }
}
