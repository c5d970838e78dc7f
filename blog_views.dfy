/** The blog views that hold logic: choosing a unique slug for a new post,
    counting views of a post, and listing only published posts. The slug
    function of the web framework is a parameter, and the slugs already
    stored are a finite set. */
module BlogViews {
  import Text

  /** A BlogPost record, with the fields the views read or write. An unset
      slug is the empty string. */
  class BlogPost {
    var title: string
    var slug: string
    var isPublished: bool
    var viewsCount: nat

    /** A new post: nobody has viewed it yet. */
    constructor (title: string, slug: string, isPublished: bool)
      ensures this.title == title && this.slug == slug && this.isPublished == isPublished
      ensures viewsCount == 0
    {
      this.title := title;
      this.slug := slug;
      this.isPublished := isPublished;
      this.viewsCount := 0;
    }

    /** `BlogPost.save`: a post still without a slug gets the slug of its title. */
    method Save(slugify: string -> string)
      modifies this`slug
      ensures slug == if old(slug) == "" then slugify(title) else old(slug)
    {
      if slug == "" {
        slug := slugify(title);
      }
    }
  }

  /** The n-th alternative to a taken slug, `f"{base}-{n}"`. */
  function Candidate(base: string, n: nat): (s: string)
    ensures |s| > |base|
  {
    base + "-" + Text.NatToString(n)
  }

  /** Alternatives with different numbers are different slugs. */
  lemma CandidateInjective(base: string, a: nat, b: nat)
    requires Candidate(base, a) == Candidate(base, b)
    ensures a == b
  {
    assert Candidate(base, a)[|base| + 1..] == Text.NatToString(a);
    assert Candidate(base, b)[|base| + 1..] == Text.NatToString(b);
    Text.NatToStringInjective(a, b);
  }

  /** `slug` is the first free slug among base, base-1, base-2, ...: it is
      not taken, it is base when base is free, and otherwise it is base-n
      for the smallest n >= 1 whose slug is free. */
  ghost predicate FirstFree(base: string, existing: set<string>, slug: string) {
    && slug !in existing
    && (base !in existing ==> slug == base)
    && (base in existing ==>
         exists n: nat :: n >= 1 && slug == Candidate(base, n) &&
           forall m: nat :: 1 <= m < n ==> Candidate(base, m) in existing)
  }

  /** The rule above picks exactly one slug. */
  lemma FirstFreeUnique(base: string, existing: set<string>, s1: string, s2: string)
    requires FirstFree(base, existing, s1) && FirstFree(base, existing, s2)
    ensures s1 == s2
  {
    if base in existing {
      var n1: nat :| n1 >= 1 && s1 == Candidate(base, n1) &&
        forall m: nat :: 1 <= m < n1 ==> Candidate(base, m) in existing;
      var n2: nat :| n2 >= 1 && s2 == Candidate(base, n2) &&
        forall m: nat :: 1 <= m < n2 ==> Candidate(base, m) in existing;
    }
  }

  /** The de-duplication loop of `BlogCreateView.form_valid`: try base, then
      base-1, base-2, ... until a slug is not taken. It terminates because
      every slug it rejects is a different member of the finite set of
      stored slugs. */
  method UniqueSlug(base: string, existing: set<string>) returns (slug: string)
    ensures FirstFree(base, existing, slug)
  {
    slug := base;
    var num: nat := 1;
    ghost var rejected: set<string> := {};
    while slug in existing
      invariant num >= 1
      invariant slug == if num == 1 then base else Candidate(base, num - 1)
      invariant num > 1 ==> base in existing
      invariant forall m: nat :: 1 <= m < num - 1 ==> Candidate(base, m) in existing
      invariant rejected <= existing && (num == 1 ==> rejected == {})
      invariant forall s :: s in rejected ==> s == base || exists m: nat :: 1 <= m < num - 1 && s == Candidate(base, m)
      decreases existing - rejected
    {
      if num > 1 {
        forall m: nat | 1 <= m < num - 1 ensures Candidate(base, m) != slug {
          if Candidate(base, m) == slug {
            CandidateInjective(base, m, num - 1);
          }
        }
      }
      assert slug !in rejected;
      rejected := rejected + {slug};
      slug := Candidate(base, num);
      num := num + 1;
    }
  }

  /** `BlogCreateView.form_valid`: a post that already has a slug keeps it;
      otherwise it gets the first free slug derived from its title. */
  method FormValid(post: BlogPost, existing: set<string>, slugify: string -> string)
    modifies post`slug
    ensures old(post.slug) != "" ==> post.slug == old(post.slug)
    ensures old(post.slug) == "" ==> FirstFree(slugify(post.title), existing, post.slug)
  {
    if post.slug == "" {
      var base := slugify(post.title);
      var slug := UniqueSlug(base, existing);
      post.slug := slug;
    }
    post.Save(slugify);
  }

  /** `BlogDetailView.get_object`: showing a post counts one more view. */
  method GetObject(post: BlogPost)
    modifies post`viewsCount
    ensures post.viewsCount == old(post.viewsCount) + 1
  {
    post.viewsCount := post.viewsCount + 1;
  }

  /** `BlogListView.get_queryset`: exactly the published posts of the list. */
  function Published(posts: seq<BlogPost>): (r: seq<BlogPost>)
    reads set p | p in posts
    ensures forall i :: 0 <= i < |r| ==> r[i] in posts && r[i].isPublished
    ensures forall i :: 0 <= i < |posts| && posts[i].isPublished ==> posts[i] in r
    ensures |r| <= |posts|
    decreases |posts|
  {
    if posts == [] then []
    else (if posts[0].isPublished then [posts[0]] else []) + Published(posts[1..])
  }

  /** Each published post is listed as many times as the table holds it, and
      an unpublished one not at all. */
  lemma {:induction false} PublishedCounts(posts: seq<BlogPost>)
    ensures forall p :: p in posts ==>
      multiset(Published(posts))[p] == if p.isPublished then multiset(posts)[p] else 0
    decreases |posts|
  {
    if posts != [] {
      PublishedCounts(posts[1..]);
      assert posts == [posts[0]] + posts[1..];
      var head := if posts[0].isPublished then [posts[0]] else [];
      assert multiset(Published(posts)) == multiset(head) + multiset(Published(posts[1..]));
      forall p | p in posts
        ensures multiset(Published(posts))[p] == if p.isPublished then multiset(posts)[p] else 0
      {
        if p !in posts[1..] {
          assert multiset(posts[1..])[p] == 0;
          assert multiset(Published(posts[1..]))[p] == 0;
        }
      }
    }
  }
}
