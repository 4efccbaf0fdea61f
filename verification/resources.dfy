/**
 The two resource kinds the service exposes, as instances of the generic
 store and handlers: users under `/users` and posts under `/posts`.
 */
module Resources {
  import opened Store
  import opened Handler
  import opened Decimal

  datatype UserFields = UserFields(name: string, email: string, password: string)

  datatype PostFields = PostFields(caption: string, imageUrl: string, timeStamp: string)

  type User = Record<UserFields>

  type Posts = Record<PostFields>

  const UsersCollection := "users"

  const PostsCollection := "posts"

  /**
   A user posted to an empty store with body `{"Name":"Ada",...}` is the
   only entry afterwards, and `/users/<generated id>` returns it with the
   generated id filled in.
   */
  lemma PostedUserIsFound(clock: int64)
    ensures
      var ada := UserFields("Ada", "a@x.com", "p");
      var after := Post(NewStore<UserFields>(), Decoded(Record("", ada)), clock).store;
      var id := IdFor(clock);
      && |after| == 1
      && GetById(after, "/users/" + id).response == Response(StatusOK, One(Record(id, ada)))
  {
    var ada := UserFields("Ada", "a@x.com", "p");
    PostThenGet(NewStore<UserFields>(), Record("", ada), clock, UsersCollection);
    assert "/users/" + IdFor(clock) == "/" + UsersCollection + "/" + IdFor(clock);
  }

  /** A nested path under `/posts/` is not found, whatever the store holds. */
  lemma NestedPostPathNotFound(s: Store<PostFields>)
    ensures GetById(s, "/posts/a/b").response == Response(StatusNotFound, Empty)
  {
    NestedPathNotFound(s, PostsCollection, "a", "b");
    assert "/posts/a/b" == "/" + PostsCollection + "/" + "a" + "/" + "b";
  }
}
