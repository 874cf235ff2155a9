/**
 * The connection pool's database: one mutable field per table. The
 * controllers' handlers take it as a parameter and change its tables one
 * statement at a time.
 */
module Store {

  import opened Schema

  class Database {
    var users: seq<User>
    var documents: seq<Document>
    var versions: seq<Version>
    var shares: map<ShareKey, Permission>
    var resetTokens: seq<ResetToken>

    /** The current contents of all tables. */
    function Snapshot(): (t: Tables)
      reads this
      ensures t.users == users && t.documents == documents && t.versions == versions
      ensures t.shares == shares && t.resetTokens == resetTokens
    {
      Tables(users, documents, versions, shares, resetTokens)
    }

    /** A freshly created schema: every table empty. */
    constructor ()
      ensures Snapshot() == Tables([], [], [], map[], [])
      ensures Valid(Snapshot())
    {
      users, documents, versions, shares, resetTokens := [], [], [], map[], [];
    }
  }
}
