/** The post database (`~/.cache/anitsu.json`) that get_posts.py fills,
    get_files.py resolves, delete_files.py resets and gen_anitsu_files.py
    turns into the browsable catalog: post id -> post record. */
module Database {
  import opened Trees

  /** One stored post. `nextcloud` maps each share link to the tree it
      resolved to (empty until resolved); `gdrive` maps each Google Drive
      link to an always-empty object. The JSON objects under both maps are
      typed as trees here. */
  datatype Post = Post(
    title: string,
    url: string,
    date: string,
    modified: string,
    password: string,
    isRelease: bool,
    image: string,
    imageUrl: string,
    malId: string,
    anilist: string,
    nextcloud: Dict<Tree>,
    gdrive: Dict<Tree>)

  /** Post id (the decimal WordPress id) -> post, in insertion order. */
  type Db = Dict<Post>

  /** Unique ids, and unique links inside every post. */
  predicate DbWellFormed(db: Db) {
    && UniqueKeys(db)
    && forall item :: item in db ==> UniqueKeys(item.1.nextcloud) && UniqueKeys(item.1.gdrive)
  }
}
