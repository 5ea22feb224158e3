/**
  The content controllers keep their images on one public disk, each under
  its own folder.  A request to one controller adds or deletes keys only in
  that controller's folder, so another table over the same disk stays
  consistent: shown here for the posts controller beside the events table.
 */
module Site {
  import opened Images
  import opened Validation
  import EventApi
  import PostApi

  /** `store` on posts leaves every event's image on the shared disk. */
  method StorePostBesideEvents(events: EventApi.EventController, posts: PostApi.PostController, r: PostApi.PostInput)
    returns (resp: Response<PostApi.PostRow>)
    requires events.disk == posts.disk && events.Valid() && posts.Valid()
    modifies posts, posts.disk
    ensures events.Valid() && posts.Valid()
  {
    resp := posts.Store(r);
    OtherPrefix(events.Images(), old(posts.disk.blobs), posts.disk.blobs, EventApi.Prefix);
  }

  /** `update` on posts leaves every event's image on the shared disk. */
  method UpdatePostBesideEvents(events: EventApi.EventController, posts: PostApi.PostController, id: nat, r: PostApi.PostInput)
    returns (resp: Response<PostApi.PostRow>)
    requires events.disk == posts.disk && events.Valid() && posts.Valid()
    modifies posts, posts.disk
    ensures events.Valid() && posts.Valid()
  {
    resp := posts.Update(id, r);
    OtherPrefix(events.Images(), old(posts.disk.blobs), posts.disk.blobs, EventApi.Prefix);
  }

  /** `destroy` on posts leaves every event's image on the shared disk. */
  method DestroyPostBesideEvents(events: EventApi.EventController, posts: PostApi.PostController, id: nat)
    returns (resp: Response<PostApi.PostRow>)
    requires events.disk == posts.disk && events.Valid() && posts.Valid()
    modifies posts, posts.disk
    ensures events.Valid() && posts.Valid()
  {
    resp := posts.Destroy(id);
    OtherPrefix(events.Images(), old(posts.disk.blobs), posts.disk.blobs, EventApi.Prefix);
  }
}
