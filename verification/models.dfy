/** The persistent records of the catalog (users, images, labels, favourites,
    deployment providers) with the defaults and hooks the ORM applies, and the
    response shapes the services hand back. Timestamps are abstract integers
    supplied by the caller; only their order matters (image sorting). */
module Models {
  import opened Results
  import opened Tables

  // ---------------------------------------------------------------- users

  /** Go declares `type Role string`: any string can be stored, two are named. */
  type Role = string

  const RoleUser: Role := "user"
  const RoleAdmin: Role := "admin"

  /** The roles the system recognises. */
  predicate IsValidRole(role: Role) {
    role == RoleUser || role == RoleAdmin
  }

  /** The password column. The service fills it with the plaintext and the
      `BeforeCreate` hook replaces that with a bcrypt digest before the insert;
      the two kinds of content are told apart here. */
  datatype Credential = Plain(text: string) | Hashed(digest: string) {
    function Text(): string {
      match this
      case Plain(t) => t
      case Hashed(d) => d
    }
  }

  datatype User = User(
    username: string,
    email: string,
    password: Credential,
    nickname: string,
    avatar: string,
    role: Role)
  {
    predicate IsAdmin() {
      role == RoleAdmin
    }
  }

  /** The ORM's `BeforeCreate` hook. `hash` is bcrypt's `GenerateFromPassword`
      at the default cost, which may fail. The stored credential becomes the
      digest; an empty role becomes `user` and an empty nickname the username;
      every other field is kept. */
  function BeforeCreate(u: User, hash: string -> Result<string>): (r: Result<User>)
    ensures r.Err? <==> hash(u.password.Text()).Err?
    ensures r.Ok? ==> r.value.password == Hashed(hash(u.password.Text()).value)
    ensures r.Ok? ==> r.value.password.Hashed? && r.value.password != Plain(u.password.Text())
    ensures r.Ok? ==> r.value.role != "" && (u.role != "" ==> r.value.role == u.role)
    ensures r.Ok? && u.role == "" ==> r.value.role == RoleUser
    ensures r.Ok? && u.username != "" ==> r.value.nickname != ""
    ensures r.Ok? && u.nickname != "" ==> r.value.nickname == u.nickname
    ensures r.Ok? && u.nickname == "" ==> r.value.nickname == u.username
    ensures r.Ok? ==> r.value.username == u.username && r.value.email == u.email
    ensures r.Ok? ==> r.value.avatar == u.avatar
  {
    match hash(u.password.Text())
    case Err(e) => Err(e)
    case Ok(digest) =>
      var role := if u.role == "" then RoleUser else u.role;
      var nickname := if u.nickname == "" then u.username else u.nickname;
      Ok(u.(password := Hashed(digest), role := role, nickname := nickname))
  }

  /** `User.ComparePassword`: bcrypt's `CompareHashAndPassword` (`verify`)
      applied to the stored column text. */
  predicate ComparePassword(u: User, password: string, verify: (string, string) -> bool) {
    verify(u.password.Text(), password)
  }

  // --------------------------------------------------------------- images

  /** An image row (its primary key is the table key). `stars` is the number
      of favourites, kept by the service, not by the database. */
  datatype Image = Image(
    orgId: Id,
    name: string,
    description: string,
    author: Id,
    registry: string,
    namespace: string,
    repository: string,
    tag: string,
    digest: string,
    size: int,
    readmePath: string,
    stars: int,
    visibility: string,
    platform: string,
    createdAt: int,
    updatedAt: int)

  const DefaultVisibility := "public"

  /** Column defaults applied on insert: gorm leaves zero-valued fields that
      carry a `default:` tag out of the INSERT, so the database fills them.
      `stars` and `size` default to 0, which is their zero value already;
      an empty visibility becomes `public`. */
  function WithColumnDefaults(img: Image): (r: Image)
    ensures r.visibility == (if img.visibility == "" then DefaultVisibility else img.visibility)
    ensures r.stars == img.stars && r.size == img.size
    ensures r.(visibility := img.visibility) == img
  {
    if img.visibility == "" then img.(visibility := DefaultVisibility) else img
  }

  /** A label row: only its name, which carries a unique index. */
  datatype Label = Label(name: string)

  /** A favourite: one row per (user, image); the table declares no unique key. */
  datatype Collection = Collection(userId: Id, imageId: Id)

  // ------------------------------------------------------------- deployment
  // The Provider and ImageProvider record definitions are not part of this
  // model's sources; their fields follow their use in the deploy service.

  datatype Provider = Provider(name: string, apiUrl: string)

  /** Deployment parameters as decoded JSON: `None` is a nil map. Values are
      kept as strings; the JSON value structure is not modelled. */
  type Params = Option<map<string, string>>

  /** The `params` text column: empty, the JSON text of some parameters, or
      text that does not decode. JSON encoding is abstracted as `Encoded`. */
  datatype ParamsColumn = Blank | Encoded(params: Params) | Unreadable(text: string)

  datatype ImageProvider = ImageProvider(imageId: Id, providerId: Id, params: ParamsColumn)

  // -------------------------------------------------------------- responses

  /** `UserResponse`; `token` is empty when the Go struct omits it. */
  datatype UserResponse = UserResponse(
    id: Id,
    username: string,
    email: string,
    nickname: string,
    avatar: string,
    role: Role,
    token: string)

  /** `ImageResponse`. The label names form a set: the order in which the
      ORM preloads them is not specified. */
  datatype ImageResponse = ImageResponse(
    id: Id,
    orgId: Id,
    name: string,
    description: string,
    author: Id,
    registry: string,
    namespace: string,
    repository: string,
    tag: string,
    digest: string,
    size: int,
    readmePath: string,
    stars: int,
    visibility: string,
    platform: string,
    labels: set<string>,
    isStarred: bool,
    createdAt: int,
    updatedAt: int)

  /** The image columns a response shows. */
  function RowOf(r: ImageResponse): Image {
    Image(r.orgId, r.name, r.description, r.author, r.registry, r.namespace, r.repository,
      r.tag, r.digest, r.size, r.readmePath, r.stars, r.visibility, r.platform, r.createdAt, r.updatedAt)
  }

  /** The response built from an image row: it shows every column of the
      row, the given label names and the caller's favourite flag. */
  function Respond(id: Id, img: Image, labels: set<string>, starred: bool): (r: ImageResponse)
    ensures r.id == id && RowOf(r) == img
    ensures r.labels == labels && r.isStarred == starred
  {
    ImageResponse(id, img.orgId, img.name, img.description, img.author, img.registry,
      img.namespace, img.repository, img.tag, img.digest, img.size, img.readmePath,
      img.stars, img.visibility, img.platform, labels, starred, img.createdAt, img.updatedAt)
  }
}
