/** The wall of posts and their comments (`WallService`). */
module Wall {
  import opened Errors

  /** An attachment (photo, video, audio, document, link); only its type tag is kept. */
  datatype Attachment = Attachment(kind: string)

  datatype Likes = Likes(count: int, userLikes: bool, canLike: bool, canPublish: bool)

  datatype Comment = Comment(
    id: int,
    fromId: int,
    date: int,
    text: string,
    replyToUser: int,
    replyToComment: int,
    attachments: seq<Attachment>)

  datatype Post = Post(
    id: int,
    toId: int,
    fromId: int,
    date: int,
    text: string,
    postType: string,
    canEdit: bool,
    canDelete: bool,
    canPin: bool,
    isPinned: bool,
    isFavorite: bool,
    likes: Likes,
    comments: seq<Comment>,
    attachments: seq<Attachment>)

  /** `posts.indexOfFirst { it.id == id }`: the first position holding `id`, or -1 when none does. */
  function IndexOfId(ps: seq<Post>, id: int): (k: int)
    ensures -1 <= k < |ps|
    ensures k == -1 <==> forall i :: 0 <= i < |ps| ==> ps[i].id != id
    ensures k != -1 ==> ps[k].id == id && forall i :: 0 <= i < k ==> ps[i].id != id
  {
    if ps == [] then -1
    else if ps[0].id == id then 0
    else
      var k := IndexOfId(ps[1..], id);
      if k == -1 then -1 else k + 1
  }

  class WallService {
    var posts: array<Post>
    var currentPostId: int
    var currentCommentId: int

    /** Every stored post carries a distinct id issued by the post counter. */
    ghost predicate Valid()
      reads this, posts
    {
      && 1 <= currentPostId
      && 1 <= currentCommentId
      && (forall i :: 0 <= i < posts.Length ==> 1 <= posts[i].id < currentPostId)
      && (forall i, j :: 0 <= i < j < posts.Length ==> posts[i].id != posts[j].id)
    }

    constructor ()
      ensures Valid() && fresh(posts)
      ensures posts[..] == [] && currentPostId == 1 && currentCommentId == 1
    {
      posts := new Post[0];
      currentPostId := 1;
      currentCommentId := 1;
    }

    /** `findById`: the post with that id, or PostNotFound. */
    function FindById(id: int): (r: Result<Post>)
      reads this, posts
      ensures r.Err? <==> forall i :: 0 <= i < posts.Length ==> posts[i].id != id
      ensures r.Err? ==> r.error == PostNotFound
      ensures r.Ok? ==> r.value.id == id && r.value in posts[..]
    {
      var k := IndexOfId(posts[..], id);
      if k == -1 then Err(PostNotFound) else Ok(posts[k])
    }

    /** `add`: stores a copy of `post` under the next post id, whatever id the caller gave. */
    method Add(post: Post) returns (r: Post)
      requires Valid()
      modifies this
      ensures Valid() && fresh(posts)
      ensures r == post.(id := old(currentPostId))
      ensures posts[..] == old(posts[..]) + [r]
      ensures currentPostId == old(currentPostId) + 1
      ensures currentCommentId == old(currentCommentId)
    {
      r := post.(id := currentPostId);
      currentPostId := currentPostId + 1;
      var grown := new Post[posts.Length + 1];
      forall i | 0 <= i < posts.Length {
        grown[i] := posts[i];
      }
      grown[posts.Length] := r;
      posts := grown;
    }

    /**
     * `createComment`: gives `comment` the next comment id and appends it to the comments of
     * the post `postId`; PostNotFound when there is no such post.
     */
    method CreateComment(postId: int, comment: Comment) returns (r: Result<Comment>)
      requires Valid()
      modifies this, posts
      ensures Valid() && posts == old(posts) && currentPostId == old(currentPostId)
      ensures
        var k := IndexOfId(old(posts[..]), postId);
        if k == -1 then
          && r == Err(PostNotFound)
          && posts[..] == old(posts[..])
          && currentCommentId == old(currentCommentId)
        else
          && r == Ok(comment.(id := old(currentCommentId)))
          && posts[..] == old(posts[..])[k := old(posts[k]).(comments := old(posts[k].comments) + [r.value])]
          && currentCommentId == old(currentCommentId) + 1
    {
      var found := FindById(postId);
      if found.Err? {
        return Err(found.error);
      }
      var post := found.value;
      var newComment := comment.(id := currentCommentId);
      currentCommentId := currentCommentId + 1;
      var updated := post.(comments := post.comments + [newComment]);
      var index := IndexOfId(posts[..], postId);
      posts[index] := updated;
      r := Ok(newComment);
    }

    /**
     * `update`: replaces the first post whose id is `post.id` by `post`, keeping the stored id;
     * answers whether there was one.
     */
    method Update(post: Post) returns (found: bool)
      requires Valid()
      modifies posts
      ensures Valid()
      ensures
        var k := IndexOfId(old(posts[..]), post.id);
        && found == (k != -1)
        && posts[..] == if found then old(posts[..])[k := post.(id := old(posts[k].id))] else old(posts[..])
    {
      var i := 0;
      while i < posts.Length
        invariant 0 <= i <= posts.Length
        invariant forall j :: 0 <= j < i ==> posts[j].id != post.id
        invariant posts[..] == old(posts[..])
      {
        if posts[i].id == post.id {
          posts[i] := post.(id := posts[i].id);
          return true;
        }
        i := i + 1;
      }
      return false;
    }

    /** `clear`: empties the wall and restarts post ids at 1; the comment counter keeps running. */
    method Clear()
      requires Valid()
      modifies this
      ensures Valid() && fresh(posts)
      ensures posts[..] == [] && currentPostId == 1
      ensures currentCommentId == old(currentCommentId)
    {
      posts := new Post[0];
      currentPostId := 1;
    }
  }

  /** After `clear`, posts are numbered 1, 2, ... again, while comment ids continue where they were. */
  method NumberingAfterClear(w: WallService, a: Post, b: Post, c: Comment)
    returns (first: Post, second: Post, made: Result<Comment>)
    requires w.Valid()
    modifies w
    ensures first.id == 1 && second.id == 2
    ensures made == Ok(c.(id := old(w.currentCommentId)))
  {
    w.Clear();
    first := w.Add(a);
    second := w.Add(b);
    made := w.CreateComment(1, c);
  }
}
