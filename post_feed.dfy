/** The photo feed of the studio page: the list of posts, the image waiting to be
    launched and the caption typed for it, with the two transitions the page
    offers (launch a post, spark an anonymous comment). Every transition is a
    function from the old state to the new one, as the component hands a freshly
    built list to its state setters. */
module PostFeed {

  datatype Option<T> = None | Some(value: T)

  /** A file the user picked in the upload control, known to the model only by identity. */
  datatype FileHandle = FileHandle(token: nat)

  /** The `blob:` URL the browser hands out for a picked file. */
  type ObjectUrl = string

  datatype Post = Post(id: int, image: ObjectUrl, caption: string, comments: seq<string>)

  /** The component's state: `posts`, the pending `image` and the pending `caption`. */
  datatype Feed = Feed(posts: seq<Post>, image: Option<FileHandle>, caption: string)

  /** The state at mount: no posts, no pending image, an empty caption. */
  const Initial: Feed := Feed([], None, "")

  /** Launching: nothing happens without a pending image; otherwise a post stamped
      with `now`, showing the URL of the pending image and the pending caption,
      and with no comments, goes to the front, and the pending fields are cleared.
      `now` stands for the clock reading and `url` for the fresh `blob:` URL the
      browser creates for the pending file at this launch. */
  function AddPost(s: Feed, now: int, url: ObjectUrl): (r: Feed)
    ensures s.image == None ==> r == s
    ensures s.image != None ==>
      && |r.posts| == |s.posts| + 1
      && r.posts[0].id == now
      && r.posts[0].image == url
      && r.posts[0].caption == s.caption
      && r.posts[0].comments == []
      && r.posts[1..] == s.posts
      && r.caption == ""
    ensures r.image == None
  {
    match s.image
    case None => s
    case Some(_) =>
      var launched := Post(now, url, s.caption, []);
      Feed([launched] + s.posts, None, "")
  }

  /** Launching twice in a row without picking a new file launches once. */
  lemma RelaunchIsNoOp(s: Feed, now: int, url: ObjectUrl, later: int, laterUrl: ObjectUrl)
    ensures AddPost(AddPost(s, now, url), later, laterUrl) == AddPost(s, now, url)
  {
  }

  /** The comment update applied to each post of a list: `text` is appended to the
      comments of every post whose id is `id`, whatever the text and however many
      posts share that id; all else is kept. */
  function CommentEach(posts: seq<Post>, id: int, text: string): (r: seq<Post>)
    ensures |r| == |posts|
    ensures forall i :: 0 <= i < |posts| ==>
      && r[i].id == posts[i].id
      && r[i].image == posts[i].image
      && r[i].caption == posts[i].caption
      && r[i].comments == (if posts[i].id == id then posts[i].comments + [text] else posts[i].comments)
    ensures (forall i :: 0 <= i < |posts| ==> posts[i].id != id) ==> r == posts
  {
    if posts == [] then []
    else
      var p := posts[0];
      var q := if p.id == id then p.(comments := p.comments + [text]) else p;
      [q] + CommentEach(posts[1..], id, text)
  }

  /** Sparking a comment replaces the post list and touches nothing else. */
  function AddComment(s: Feed, id: int, text: string): (r: Feed)
    ensures |r.posts| == |s.posts|
    ensures forall i :: 0 <= i < |s.posts| ==>
      && r.posts[i].id == s.posts[i].id
      && r.posts[i].image == s.posts[i].image
      && r.posts[i].caption == s.posts[i].caption
      && r.posts[i].comments == (if s.posts[i].id == id then s.posts[i].comments + [text] else s.posts[i].comments)
    ensures r.image == s.image && r.caption == s.caption
    ensures (forall i :: 0 <= i < |s.posts| ==> s.posts[i].id != id) ==> r == s
  {
    s.(posts := CommentEach(s.posts, id, text))
  }

  /** What the page lets the user do to the feed. */
  datatype Event =
    | PickFile(file: Option<FileHandle>)
    | TypeCaption(text: string)
    | Launch(now: int, url: ObjectUrl)
    | Spark(id: int, text: string)

  /** One event: the file input and the caption input set the pending fields
      (an empty file choice clears the image), the Launch button launches, and
      a Spark button comments on its post. */
  function Step(s: Feed, e: Event): Feed
  {
    match e
    case PickFile(file) => s.(image := file)
    case TypeCaption(text) => s.(caption := text)
    case Launch(now, url) => AddPost(s, now, url)
    case Spark(id, text) => AddComment(s, id, text)
  }

  function Run(s: Feed, es: seq<Event>): Feed
    decreases |es|
  {
    if es == [] then s else Run(Step(s, es[0]), es[1..])
  }

  /** `q` is a later state of post `p`: same id, image and caption, and the
      comments of `p` are the first comments of `q`. */
  predicate Evolves(p: Post, q: Post)
  {
    && q.id == p.id
    && q.image == p.image
    && q.caption == p.caption
    && |p.comments| <= |q.comments|
    && q.comments[..|p.comments|] == p.comments
  }

  /** `after` ends with the posts of `before`, in their order, each evolved: new
      posts are only ever placed in front, and comments only ever appended. */
  predicate Retains(before: seq<Post>, after: seq<Post>)
  {
    && |before| <= |after|
    && forall i :: 0 <= i < |before| ==> Evolves(before[i], after[|after| - |before| + i])
  }

  lemma RetainsTransitive(a: seq<Post>, b: seq<Post>, c: seq<Post>)
    requires Retains(a, b) && Retains(b, c)
    ensures Retains(a, c)
  {
    forall i | 0 <= i < |a|
      ensures Evolves(a[i], c[|c| - |a| + i])
    {
      var j := |b| - |a| + i;
      assert Evolves(a[i], b[j]);
      assert Evolves(b[j], c[|c| - |b| + j]);
      assert c[|c| - |b| + j].comments[..|a[i].comments|] == b[j].comments[..|a[i].comments|];
    }
  }

  /** Every single event keeps the feed's history: newest first, comments append-only. */
  lemma StepRetains(s: Feed, e: Event)
    ensures Retains(s.posts, Step(s, e).posts)
  {
    var r := Step(s, e).posts;
    match e
    case Spark(id, text) =>
      forall i | 0 <= i < |s.posts|
        ensures Evolves(s.posts[i], r[i])
      {
        assert r[i].comments[..|s.posts[i].comments|] == s.posts[i].comments;
      }
    case Launch(_, _) =>
      forall i | 0 <= i < |s.posts|
        ensures Evolves(s.posts[i], r[|r| - |s.posts| + i])
      {
        if s.image != None {
          assert r[|r| - |s.posts| + i] == r[1..][i];
        }
      }
    case _ =>
  }

  /** Any session of events keeps every earlier post, in order, behind the newer ones,
      with its id, image and caption unchanged and its comments only extended. */
  lemma {:induction false} RunRetains(s: Feed, es: seq<Event>)
    ensures Retains(s.posts, Run(s, es).posts)
    decreases |es|
  {
    if es == [] {
      forall i | 0 <= i < |s.posts|
        ensures Evolves(s.posts[i], s.posts[i])
      {
        assert s.posts[i].comments[..|s.posts[i].comments|] == s.posts[i].comments;
      }
    } else {
      var t := Step(s, es[0]);
      StepRetains(s, es[0]);
      RunRetains(t, es[1..]);
      RetainsTransitive(s.posts, t.posts, Run(t, es[1..]).posts);
    }
  }

  /** Pick a file, caption it, launch, spark a comment on the new post, launch
      again without a new file: one post, with the caption and the one comment. */
  lemma {:induction false} LaunchSparkRelaunch(file: FileHandle, now: int, url: ObjectUrl, later: int, laterUrl: ObjectUrl)
    ensures
      var es := [PickFile(Some(file)), TypeCaption("hello"), Launch(now, url), Spark(now, "hi"), Launch(later, laterUrl)];
      Run(Initial, es).posts == [Post(now, url, "hello", ["hi"])]
  {
    var es := [PickFile(Some(file)), TypeCaption("hello"), Launch(now, url), Spark(now, "hi"), Launch(later, laterUrl)];
    var s1 := Step(Initial, es[0]);
    var s2 := Step(s1, es[1]);
    var s3 := Step(s2, es[2]);
    var s4 := Step(s3, es[3]);
    var s5 := Step(s4, es[4]);
    assert s3.posts == [Post(now, url, "hello", [])];
    assert s4 == AddComment(s3, now, "hi");
    assert |s4.posts| == 1 && s4.posts[0].id == now && s4.posts[0].image == url;
    assert s4.posts[0].caption == "hello" && s4.posts[0].comments == [] + ["hi"];
    assert s4.posts[0] == Post(now, url, "hello", ["hi"]);
    assert s4.posts == [Post(now, url, "hello", ["hi"])];
    assert Run(s5, es[5..]) == s5;
    assert Run(s4, es[4..]) == s5;
    assert Run(s3, es[3..]) == s5;
    assert Run(s2, es[2..]) == s5;
    assert Run(s1, es[1..]) == s5;
  }
}
