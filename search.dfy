/** The list and search helpers of backend/src/controllers/groupController.ts
    (`searchGroup`, `searchGroupPosts`, `searchAllPosts`, `searchMyGroups`,
    `searchMyPost`, `searchPostComments`). Each one filters a table, orders the
    matching rows, and returns the window `offset = (page - 1) * pageSize` of at
    most `pageSize` rows, with the number of matches and
    `Math.ceil(count / pageSize)` pages. */
module Search {
  import opened Common
  import opened Entities

  // ---------------------------------------------------------------------------
  // `column ILIKE '%query%'`

  /** Folds an ASCII capital to its small letter; every other character is
      kept. */
  function LowerChar(c: char): (r: char)
    ensures !('A' <= r <= 'Z')
    ensures r == c || ('A' <= c <= 'Z' && r as int == c as int + 32)
  {
    if 'A' <= c <= 'Z' then (c as int + 32) as char else c
  }

  function Lower(s: string): (r: string)
    ensures |r| == |s|
    ensures forall i :: 0 <= i < |s| ==> r[i] == LowerChar(s[i])
  {
    seq(|s|, i requires 0 <= i < |s| => LowerChar(s[i]))
  }

  lemma LowerIdempotent(s: string)
    ensures Lower(Lower(s)) == Lower(s)
  {
  }

  predicate StartsWith(s: string, prefix: string)
  {
    |prefix| <= |s| && s[..|prefix|] == prefix
  }

  /** `s` has `sub` at some position. */
  predicate Contains(s: string, sub: string)
    decreases |s|
  {
    StartsWith(s, sub) || (|s| > 0 && Contains(s[1..], sub))
  }

  /** `sub` occurs in `s` starting at index `i`. */
  predicate OccursAt(s: string, sub: string, i: int)
  {
    0 <= i && i + |sub| <= |s| && s[i..i + |sub|] == sub
  }

  /** Contains means: `sub` occurs in `s` at some index. */
  lemma {:induction false} ContainsIff(s: string, sub: string)
    ensures Contains(s, sub) <==> exists i :: OccursAt(s, sub, i)
    decreases |s|
  {
    if StartsWith(s, sub) {
      assert OccursAt(s, sub, 0);
    }
    if |s| > 0 {
      ContainsIff(s[1..], sub);
      if Contains(s[1..], sub) {
        var i :| OccursAt(s[1..], sub, i);
        assert s[1..][i..i + |sub|] == s[i + 1..i + 1 + |sub|];
        assert OccursAt(s, sub, i + 1);
      }
      if i :| OccursAt(s, sub, i) && i > 0 {
        assert s[1..][i - 1..i - 1 + |sub|] == s[i..i + |sub|];
        assert OccursAt(s[1..], sub, i - 1);
      }
    }
  }

  /** `text ILIKE '%q%'`: `q` occurs in `text` when case is ignored. */
  predicate ILike(text: string, q: string)
  {
    Contains(Lower(text), Lower(q))
  }

  /** The empty pattern `'%%'` matches every text. */
  lemma ILikeEmpty(text: string)
    ensures ILike(text, "")
  {
  }

  /** Matching ignores the case of both the text and the query. */
  lemma ILikeIgnoresCase(text: string, q: string)
    ensures ILike(text, q) == ILike(Lower(text), q) == ILike(text, Lower(q))
  {
    LowerIdempotent(text);
    LowerIdempotent(q);
  }

  // ---------------------------------------------------------------------------
  // `query.trim()`

  /** The characters `String.prototype.trim` removes: white space and line
      terminators. */
  predicate IsTrimmed(c: char)
  {
    c == '\t' || c == '\n' || c == '\U{B}' || c == '\U{C}' || c == '\r' || c == ' ' ||
    c == '\U{A0}' || c == '\U{1680}' || ('\U{2000}' <= c <= '\U{200A}') ||
    c == '\U{2028}' || c == '\U{2029}' || c == '\U{202F}' || c == '\U{205F}' ||
    c == '\U{3000}' || c == '\U{FEFF}'
  }

  /** `query.trim()` is the empty string, which is falsy. */
  predicate Blank(q: string)
  {
    forall i :: 0 <= i < |q| ==> IsTrimmed(q[i])
  }

  // ---------------------------------------------------------------------------
  // `ORDER BY`

  /** A total preorder: any two rows are comparable and the relation chains. */
  ghost predicate TotalPreorder<T(!new)>(le: (T, T) -> bool)
  {
    && (forall a, b :: le(a, b) || le(b, a))
    && (forall a, b, c :: le(a, b) && le(b, c) ==> le(a, c))
  }

  predicate SortedBy<T>(s: seq<T>, le: (T, T) -> bool)
  {
    forall i, j :: 0 <= i < j < |s| ==> le(s[i], s[j])
  }

  /** Puts `x` before the first row it may precede. */
  function Insert<T>(x: T, s: seq<T>, le: (T, T) -> bool): (r: seq<T>)
    ensures multiset(r) == multiset(s) + multiset{x}
  {
    if s == [] then [x]
    else if le(x, s[0]) then [x] + s
    else
      assert s == [s[0]] + s[1..];
      [s[0]] + Insert(x, s[1..], le)
  }

  /** The rows in the order `le`. Rows that compare equal keep their table
      order; the database is free to order them otherwise. */
  function SortBy<T>(s: seq<T>, le: (T, T) -> bool): (r: seq<T>)
    ensures multiset(r) == multiset(s)
  {
    if s == [] then []
    else
      assert s == [s[0]] + s[1..];
      Insert(s[0], SortBy(s[1..], le), le)
  }

  lemma {:induction false} InsertSorted<T(!new)>(x: T, s: seq<T>, le: (T, T) -> bool)
    requires TotalPreorder(le) && SortedBy(s, le)
    ensures SortedBy(Insert(x, s, le), le)
  {
    if s != [] && !le(x, s[0]) {
      InsertSorted(x, s[1..], le);
      var rest := Insert(x, s[1..], le);
      forall j | 0 <= j < |rest|
        ensures le(s[0], rest[j])
      {
        assert rest[j] in multiset(rest);
        if rest[j] != x {
          assert rest[j] in multiset(s[1..]);
          var k :| 0 <= k < |s[1..]| && s[1..][k] == rest[j];
          assert s[k + 1] == rest[j];
        }
      }
    }
  }

  lemma {:induction false} SortBySorted<T(!new)>(s: seq<T>, le: (T, T) -> bool)
    requires TotalPreorder(le)
    ensures SortedBy(SortBy(s, le), le)
  {
    if s != [] {
      SortBySorted(s[1..], le);
      InsertSorted(s[0], SortBy(s[1..], le), le);
    }
  }

  /** Code-point lexicographic order on strings. */
  predicate LexLe(a: string, b: string)
    decreases |a|
  {
    a == [] || (b != [] && (a[0] < b[0] || (a[0] == b[0] && LexLe(a[1..], b[1..]))))
  }

  lemma {:induction false} LexLeTotal(a: string, b: string)
    ensures LexLe(a, b) || LexLe(b, a)
    decreases |a|
  {
    if a != [] && b != [] && a[0] == b[0] {
      LexLeTotal(a[1..], b[1..]);
    }
  }

  lemma {:induction false} LexLeTransitive(a: string, b: string, c: string)
    requires LexLe(a, b) && LexLe(b, c)
    ensures LexLe(a, c)
    decreases |a|
  {
    if a != [] && a[0] == b[0] && b[0] == c[0] {
      LexLeTransitive(a[1..], b[1..], c[1..]);
    }
  }

  /** `order: [["groupName", "ASC"]]`. */
  predicate GroupNameAsc(a: Group, b: Group)
  {
    LexLe(a.groupName, b.groupName)
  }

  /** `order: [["createdAt", "DESC"]]` on posts. */
  predicate PostNewestFirst(a: Post, b: Post)
  {
    a.createdAt >= b.createdAt
  }

  /** `order: [["createdAt", "DESC"]]` on comments. */
  predicate CommentNewestFirst(a: Comment, b: Comment)
  {
    a.createdAt >= b.createdAt
  }

  lemma GroupNameAscIsTotal()
    ensures TotalPreorder(GroupNameAsc)
  {
    forall a: Group, b: Group
      ensures GroupNameAsc(a, b) || GroupNameAsc(b, a)
    {
      LexLeTotal(a.groupName, b.groupName);
    }
    forall a: Group, b: Group, c: Group | GroupNameAsc(a, b) && GroupNameAsc(b, c)
      ensures GroupNameAsc(a, c)
    {
      LexLeTransitive(a.groupName, b.groupName, c.groupName);
    }
  }

  // ---------------------------------------------------------------------------
  // Offset pagination

  /** What the helpers return: the page asked for, its rows, the number of
      matching rows and the number of pages. */
  datatype Page<T> = Page(currentPage: int, rows: seq<T>, totalCount: nat, totalPages: nat)

  function Min(a: int, b: int): int { if a <= b then a else b }

  /** `Math.ceil(n / d)`: the fewest pages of `d` rows that hold `n` rows. */
  function CeilDiv(n: nat, d: nat): (q: nat)
    requires d > 0
    ensures q * d >= n
    ensures q > 0 ==> (q - 1) * d < n
  {
    (n + d - 1) / d
  }

  /** `offset = (page - 1) * pageSize`. */
  function Offset(page: int, pageSize: int): (o: nat)
    requires page >= 1 && pageSize >= 1
  {
    (page - 1) * pageSize
  }

  /** `limit: pageSize, offset: offset` over rows already filtered and ordered,
      with the count and `Math.ceil(count / pageSize)`. */
  function Paginate<T>(ordered: seq<T>, page: int, pageSize: int): (p: Page<T>)
    requires page >= 1 && pageSize >= 1
    ensures p.currentPage == page && p.totalCount == |ordered|
    ensures p.totalPages * pageSize >= |ordered|
    ensures p.totalPages > 0 ==> (p.totalPages - 1) * pageSize < |ordered|
    ensures |p.rows| <= pageSize
    ensures forall i :: 0 <= i < |p.rows| ==>
              Offset(page, pageSize) + i < |ordered| && p.rows[i] == ordered[Offset(page, pageSize) + i]
    ensures |p.rows| == if Offset(page, pageSize) >= |ordered| then 0
                        else Min(pageSize, |ordered| - Offset(page, pageSize))
  {
    var offset := Offset(page, pageSize);
    var rows := if offset >= |ordered| then [] else ordered[offset..Min(offset + pageSize, |ordered|)];
    Page(page, rows, |ordered|, CeilDiv(|ordered|, pageSize))
  }

  /** A page after the last one is empty, and pages up to the last are not. */
  lemma PageEmptyIffPastLast<T>(ordered: seq<T>, page: int, pageSize: int)
    requires page >= 1 && pageSize >= 1
    ensures var p := Paginate(ordered, page, pageSize);
            p.rows == [] <==> page > p.totalPages
  {
    var p := Paginate(ordered, page, pageSize);
    if page > p.totalPages {
      MulMonotone(p.totalPages, page - 1, pageSize);
    } else {
      MulMonotone(page, p.totalPages, pageSize);
      assert Offset(page, pageSize) == page * pageSize - pageSize;
      assert (p.totalPages - 1) * pageSize == p.totalPages * pageSize - pageSize;
    }
  }

  lemma MulMonotone(a: nat, b: nat, c: nat)
    requires a <= b
    ensures a * c <= b * c
  {
  }

  /** The rows of pages 1 to n, one after the other. */
  function PagesUpTo<T>(ordered: seq<T>, pageSize: int, n: nat): seq<T>
    requires pageSize >= 1
  {
    if n == 0 then [] else PagesUpTo(ordered, pageSize, n - 1) + Paginate(ordered, n, pageSize).rows
  }

  /** Page n holds the rows from (n - 1) * pageSize up to n * pageSize. */
  lemma PageIsSlice<T>(ordered: seq<T>, pageSize: int, n: nat)
    requires pageSize >= 1 && n >= 1
    ensures Min((n - 1) * pageSize, |ordered|) <= Min(n * pageSize, |ordered|)
    ensures Paginate(ordered, n, pageSize).rows
         == ordered[Min((n - 1) * pageSize, |ordered|)..Min(n * pageSize, |ordered|)]
  {
    assert n * pageSize == (n - 1) * pageSize + pageSize;
  }

  lemma PrefixThenSlice<T>(s: seq<T>, i: nat, j: nat)
    requires i <= j <= |s|
    ensures s[..i] + s[i..j] == s[..j]
  {
  }

  /** Pages 1 to n hold exactly the first n * pageSize rows, in order: no row
      is skipped and none repeats. */
  lemma {:induction false} PagesUpToPrefix<T>(ordered: seq<T>, pageSize: int, n: nat)
    requires pageSize >= 1
    ensures PagesUpTo(ordered, pageSize, n) == ordered[..Min(n * pageSize, |ordered|)]
  {
    if n > 0 {
      PagesUpToPrefix(ordered, pageSize, n - 1);
      PageIsSlice(ordered, pageSize, n);
      PrefixThenSlice(ordered, Min((n - 1) * pageSize, |ordered|), Min(n * pageSize, |ordered|));
    }
  }

  /** All pages, from the first to `totalPages`, are the rows in order. */
  lemma AllPagesAreAllRows<T>(ordered: seq<T>, pageSize: int)
    requires pageSize >= 1
    ensures PagesUpTo(ordered, pageSize, Paginate(ordered, 1, pageSize).totalPages) == ordered
  {
    var n := Paginate(ordered, 1, pageSize).totalPages;
    PagesUpToPrefix(ordered, pageSize, n);
  }

  // ---------------------------------------------------------------------------
  // The search helpers

  /** The shape every helper shares: `findAndCountAll` with a `where`, an
      `order`, `limit: pageSize` and `offset: (page - 1) * pageSize`. */
  function SearchPage<T(!new)>(table: seq<T>, where: T -> bool, order: (T, T) -> bool,
                               page: int, pageSize: int): (p: Page<T>)
    requires TotalPreorder(order)
    requires page >= 1 && pageSize >= 1
    ensures p.currentPage == page && |p.rows| <= pageSize
    ensures p.totalCount == |Filter(table, where)|
    ensures p.totalPages * pageSize >= p.totalCount
    ensures p.totalPages > 0 ==> (p.totalPages - 1) * pageSize < p.totalCount
    ensures forall i :: 0 <= i < |p.rows| ==> p.rows[i] in table && where(p.rows[i])
    ensures SortedBy(p.rows, order)
    ensures p == Paginate(SortBy(Filter(table, where), order), page, pageSize)
  {
    var matches := Filter(table, where);
    var ordered := SortBy(matches, order);
    SortBySorted(matches, order);
    var p := Paginate(ordered, page, pageSize);
    forall i | 0 <= i < |p.rows|
      ensures p.rows[i] in table && where(p.rows[i])
    {
      assert p.rows[i] in multiset(ordered);
    }
    p
  }

  /** The rows of pages 1 to n of a search, one query per page. */
  function SearchPagesUpTo<T(!new)>(table: seq<T>, where: T -> bool, order: (T, T) -> bool,
                                    pageSize: int, n: nat): seq<T>
    requires TotalPreorder(order)
    requires pageSize >= 1
  {
    if n == 0 then []
    else SearchPagesUpTo(table, where, order, pageSize, n - 1) + SearchPage(table, where, order, n, pageSize).rows
  }

  lemma {:induction false} SearchPagesArePages<T(!new)>(table: seq<T>, where: T -> bool, order: (T, T) -> bool,
                                                         pageSize: int, n: nat)
    requires TotalPreorder(order)
    requires pageSize >= 1
    ensures SearchPagesUpTo(table, where, order, pageSize, n) == PagesUpTo(SortBy(Filter(table, where), order), pageSize, n)
  {
    if n > 0 {
      SearchPagesArePages(table, where, order, pageSize, n - 1);
      var ordered := SortBy(Filter(table, where), order);
      assert SearchPage(table, where, order, n, pageSize) == Paginate(ordered, n, pageSize);
    }
  }

  /** The pages of a search, first to `totalPages`, are all the matching rows
      in order: paging neither loses nor repeats a row, as long as every page
      query orders the matches the same way (see `NoTiesPagesAgree`). */
  lemma SearchPagesCoverMatches<T(!new)>(table: seq<T>, where: T -> bool, order: (T, T) -> bool, pageSize: int)
    requires TotalPreorder(order)
    requires pageSize >= 1
    ensures SearchPagesUpTo(table, where, order, pageSize, SearchPage(table, where, order, 1, pageSize).totalPages)
            == SortBy(Filter(table, where), order)
    ensures multiset(SearchPagesUpTo(table, where, order, pageSize, SearchPage(table, where, order, 1, pageSize).totalPages))
            == multiset(Filter(table, where))
  {
    var n := SearchPage(table, where, order, 1, pageSize).totalPages;
    SearchPagesArePages(table, where, order, pageSize, n);
    AllPagesAreAllRows(SortBy(Filter(table, where), order), pageSize);
  }

  /** No two different rows of `s` compare equal under `le`, so `le` leaves
      their order to nobody. */
  ghost predicate NoTies<T>(s: seq<T>, le: (T, T) -> bool)
  {
    forall x, y :: x in s && y in s && le(x, y) && le(y, x) ==> x == y
  }

  lemma SortedTail<T>(s: seq<T>, le: (T, T) -> bool)
    requires s != [] && SortedBy(s, le)
    ensures SortedBy(s[1..], le)
  {
    forall i, j | 0 <= i < j < |s| - 1
      ensures le(s[1..][i], s[1..][j])
    {
      assert s[1..][i] == s[i + 1] && s[1..][j] == s[j + 1];
    }
  }

  lemma NoTiesTail<T>(s: seq<T>, le: (T, T) -> bool)
    requires s != [] && NoTies(s, le)
    ensures NoTies(s[1..], le)
  {
    forall x, y | x in s[1..] && y in s[1..] && le(x, y) && le(y, x)
      ensures x == y
    {
      assert x in s && y in s;
    }
  }

  lemma MultisetTail<T>(a: seq<T>, b: seq<T>)
    requires a != [] && b != [] && a[0] == b[0] && multiset(a) == multiset(b)
    ensures multiset(a[1..]) == multiset(b[1..])
  {
    assert a == [a[0]] + a[1..] && b == [b[0]] + b[1..];
    assert multiset(a) == multiset{a[0]} + multiset(a[1..]);
    assert multiset(b) == multiset{a[0]} + multiset(b[1..]);
    assert multiset(a[1..]) == multiset(a) - multiset{a[0]};
    assert multiset(b[1..]) == multiset(b) - multiset{a[0]};
  }

  /** Two sorted orders of the same rows start with the same row when no two
      rows tie: each first row comes no later than the other. */
  lemma SortedHeadsAgree<T>(a: seq<T>, b: seq<T>, le: (T, T) -> bool)
    requires a != [] && multiset(a) == multiset(b)
    requires SortedBy(a, le) && SortedBy(b, le) && NoTies(a, le)
    ensures b != [] && a[0] == b[0]
  {
    assert a[0] in multiset(b);
    var k :| 0 <= k < |b| && b[k] == a[0];
    assert b[0] in multiset(a);
    var j :| 0 <= j < |a| && a[j] == b[0];
    if j > 0 && k > 0 {
      assert le(a[0], a[j]) && le(b[0], b[k]);
    }
  }

  /** Without ties there is one sorted order of a collection of rows. */
  lemma {:induction false} SortedUnique<T>(a: seq<T>, b: seq<T>, le: (T, T) -> bool)
    requires multiset(a) == multiset(b)
    requires SortedBy(a, le) && SortedBy(b, le) && NoTies(a, le)
    ensures a == b
    decreases |a|
  {
    if a == [] {
      assert |b| == |multiset(b)| == 0;
    } else {
      SortedHeadsAgree(a, b, le);
      MultisetTail(a, b);
      SortedTail(a, le);
      SortedTail(b, le);
      NoTiesTail(a, le);
      SortedUnique(a[1..], b[1..], le);
      assert a == [a[0]] + a[1..] && b == [b[0]] + b[1..];
    }
  }

  /** When no two matching rows tie, whatever sorted order of the matches the
      database uses for a page query, that query returns the model's page. */
  lemma NoTiesPagesAgree<T(!new)>(table: seq<T>, where: T -> bool, order: (T, T) -> bool,
                                  ordered: seq<T>, page: int, pageSize: int)
    requires TotalPreorder(order)
    requires page >= 1 && pageSize >= 1
    requires NoTies(Filter(table, where), order)
    requires multiset(ordered) == multiset(Filter(table, where)) && SortedBy(ordered, order)
    ensures Paginate(ordered, page, pageSize) == SearchPage(table, where, order, page, pageSize)
  {
    var sorted := SortBy(Filter(table, where), order);
    SortBySorted(Filter(table, where), order);
    forall x, y | x in sorted && y in sorted && order(x, y) && order(y, x)
      ensures x == y
    {
      assert x in multiset(sorted) && y in multiset(sorted);
    }
    SortedUnique(sorted, ordered, order);
  }

  /** Two posts created at the same moment tie: both orders of the pair are
      sorted newest first. */
  lemma TiedPostsSortEitherWay(a: Post, b: Post)
    requires a.createdAt == b.createdAt && a != b
    ensures !NoTies([a, b], PostNewestFirst)
    ensures SortedBy([a, b], PostNewestFirst) && SortedBy([b, a], PostNewestFirst)
    ensures multiset([a, b]) == multiset([b, a])
  {
    assert a in [a, b] && b in [a, b];
  }

  /** With one row per page, the page-1 query may order two tied posts one
      way and the page-2 query the other way (`TiedPostsSortEitherWay`): the
      same post is shown twice and the other never. */
  lemma TiedPostsCanRepeatAcrossPages(a: Post, b: Post)
    requires a.createdAt == b.createdAt && a != b
    ensures Paginate([a, b], 1, 1).rows + Paginate([b, a], 2, 1).rows == [a, a]
    ensures b !in Paginate([a, b], 1, 1).rows + Paginate([b, a], 2, 1).rows
  {
    assert Paginate([a, b], 1, 1).rows == [a] by {
      assert Offset(1, 1) == 0;
      assert [a, b][0..1] == [a];
    }
    assert Paginate([b, a], 2, 1).rows == [a] by {
      assert Offset(2, 1) == 1;
      assert [b, a][1..2] == [a];
    }
  }

  /** The `where` of `searchGroup`. */
  function GroupNameMatches(searchValue: string): Group -> bool
  {
    (g: Group) => ILike(g.groupName, searchValue)
  }

  /** The `where` of `searchMyGroups`. */
  function MyGroupMatches(uid: string, searchValue: string): Group -> bool
  {
    (g: Group) => ILike(g.groupName, searchValue) && g.ownerId == uid && g.ownerType == UserOwner
  }

  /** The `where` of `searchGroupPosts`. */
  function GroupPostMatches(groupId: string, query: string): Post -> bool
  {
    (p: Post) => p.groupId == groupId && ILike(p.title, query)
  }

  /** The `where` of `searchMyPost`. */
  function MyPostMatches(uid: string, query: string): Post -> bool
  {
    (p: Post) => ILike(p.title, query) && p.uid == Some(uid)
  }

  /** The `where` of `searchPostComments`. */
  function PostReplyMatches(postId: string): Comment -> bool
  {
    (c: Comment) => c.parent == ParentPost(postId)
  }

  /** `searchGroup`: groups whose name contains the search value, ignoring
      case, by name. */
  function SearchGroup(groups: seq<Group>, searchValue: string, page: int, pageSize: int): (r: Page<Group>)
    requires page >= 1 && pageSize >= 1
    ensures |r.rows| <= pageSize && SortedBy(r.rows, GroupNameAsc)
    ensures forall i :: 0 <= i < |r.rows| ==> r.rows[i] in groups && ILike(r.rows[i].groupName, searchValue)
    ensures r == Paginate(SortBy(Filter(groups, GroupNameMatches(searchValue)), GroupNameAsc), page, pageSize)
  {
    GroupNameAscIsTotal();
    SearchPage(groups, GroupNameMatches(searchValue), GroupNameAsc, page, pageSize)
  }

  /** `searchMyGroups`: as `searchGroup`, and the group must be owned by the
      user `uid`. */
  function SearchMyGroups(groups: seq<Group>, uid: string, searchValue: string, page: int, pageSize: int)
    : (r: Page<Group>)
    requires page >= 1 && pageSize >= 1
    ensures |r.rows| <= pageSize && SortedBy(r.rows, GroupNameAsc)
    ensures forall i :: 0 <= i < |r.rows| ==>
              && r.rows[i] in groups && ILike(r.rows[i].groupName, searchValue)
              && r.rows[i].ownerId == uid && r.rows[i].ownerType == UserOwner
    ensures r == Paginate(SortBy(Filter(groups, MyGroupMatches(uid, searchValue)), GroupNameAsc), page, pageSize)
  {
    GroupNameAscIsTotal();
    SearchPage(groups, MyGroupMatches(uid, searchValue), GroupNameAsc, page, pageSize)
  }

  lemma PostNewestFirstIsTotal()
    ensures TotalPreorder(PostNewestFirst)
  {
  }

  lemma CommentNewestFirstIsTotal()
    ensures TotalPreorder(CommentNewestFirst)
  {
  }

  /** `searchGroupPosts`: posts of the group whose title contains the query,
      ignoring case, newest first. */
  function SearchGroupPosts(posts: seq<Post>, groupId: string, query: string, page: int, pageSize: int)
    : (r: Page<Post>)
    requires page >= 1 && pageSize >= 1
    ensures |r.rows| <= pageSize && SortedBy(r.rows, PostNewestFirst)
    ensures forall i :: 0 <= i < |r.rows| ==>
              r.rows[i] in posts && r.rows[i].groupId == groupId && ILike(r.rows[i].title, query)
    ensures r == Paginate(SortBy(Filter(posts, GroupPostMatches(groupId, query)), PostNewestFirst), page, pageSize)
  {
    PostNewestFirstIsTotal();
    SearchPage(posts, GroupPostMatches(groupId, query), PostNewestFirst, page, pageSize)
  }

  /** The `where` of `searchAllPosts`: no title filter at all for a blank
      query. */
  function AllPostsMatch(query: string): Post -> bool
  {
    (p: Post) => Blank(query) || ILike(p.title, query)
  }

  /** `searchAllPosts`: every post when the query is blank, otherwise the posts
      whose title contains it, ignoring case; newest first. */
  function SearchAllPosts(posts: seq<Post>, query: string, page: int, pageSize: int): (r: Page<Post>)
    requires page >= 1 && pageSize >= 1
    ensures |r.rows| <= pageSize && SortedBy(r.rows, PostNewestFirst)
    ensures forall i :: 0 <= i < |r.rows| ==> r.rows[i] in posts
    ensures !Blank(query) ==> forall i :: 0 <= i < |r.rows| ==> ILike(r.rows[i].title, query)
    ensures Blank(query) ==> r.totalCount == |posts|
    ensures r == Paginate(SortBy(Filter(posts, AllPostsMatch(query)), PostNewestFirst), page, pageSize)
    ensures Blank(query) ==> r == Paginate(SortBy(posts, PostNewestFirst), page, pageSize)
  {
    PostNewestFirstIsTotal();
    SearchPage(posts, AllPostsMatch(query), PostNewestFirst, page, pageSize)
  }

  /** `searchMyPost`: the user's posts whose title contains the query,
      ignoring case, newest first. */
  function SearchMyPost(posts: seq<Post>, uid: string, query: string, page: int, pageSize: int): (r: Page<Post>)
    requires page >= 1 && pageSize >= 1
    ensures |r.rows| <= pageSize && SortedBy(r.rows, PostNewestFirst)
    ensures forall i :: 0 <= i < |r.rows| ==>
              r.rows[i] in posts && r.rows[i].uid == Some(uid) && ILike(r.rows[i].title, query)
    ensures r == Paginate(SortBy(Filter(posts, MyPostMatches(uid, query)), PostNewestFirst), page, pageSize)
  {
    PostNewestFirstIsTotal();
    SearchPage(posts, MyPostMatches(uid, query), PostNewestFirst, page, pageSize)
  }

  /** `searchPostComments`: one page of the comments that reply to the post
      directly, newest first; only the rows are returned. */
  function SearchPostComments(comments: seq<Comment>, postId: string, page: int, pageSize: int)
    : (rows: seq<Comment>)
    requires page >= 1 && pageSize >= 1
    ensures |rows| <= pageSize && SortedBy(rows, CommentNewestFirst)
    ensures forall i :: 0 <= i < |rows| ==> rows[i] in comments && rows[i].parent == ParentPost(postId)
    ensures rows == Paginate(SortBy(Filter(comments, PostReplyMatches(postId)), CommentNewestFirst), page, pageSize).rows
  {
    CommentNewestFirstIsTotal();
    SearchPage(comments, PostReplyMatches(postId), CommentNewestFirst, page, pageSize).rows
  }

  // ---------------------------------------------------------------------------
  // Properties of the searches

  /** Two queries that agree up to case find the same groups, in the same
      order, on every page. */
  lemma SearchGroupIgnoresCase(groups: seq<Group>, q1: string, q2: string, page: int, pageSize: int)
    requires page >= 1 && pageSize >= 1
    requires Lower(q1) == Lower(q2)
    ensures SearchGroup(groups, q1, page, pageSize) == SearchGroup(groups, q2, page, pageSize)
  {
    FilterCongruent(groups, GroupNameMatches(q1), GroupNameMatches(q2));
  }

  /** An empty search value matches every group. */
  lemma SearchGroupEmptyMatchesAll(groups: seq<Group>, page: int, pageSize: int)
    requires page >= 1 && pageSize >= 1
    ensures SearchGroup(groups, "", page, pageSize).totalCount == |groups|
  {
    forall i | 0 <= i < |groups|
      ensures ILike(groups[i].groupName, "")
    {
      ILikeEmpty(groups[i].groupName);
    }
  }

  /** Two queries that agree up to case find the same posts on every page of
      `searchAllPosts`. */
  lemma SearchAllPostsIgnoresCase(posts: seq<Post>, q1: string, q2: string, page: int, pageSize: int)
    requires page >= 1 && pageSize >= 1
    requires Lower(q1) == Lower(q2) && Blank(q1) == Blank(q2)
    ensures SearchAllPosts(posts, q1, page, pageSize) == SearchAllPosts(posts, q2, page, pageSize)
  {
    FilterCongruent(posts, AllPostsMatch(q1), AllPostsMatch(q2));
  }

  /** A query of spaces: `searchAllPosts` drops the filter and lists every
      post, while `searchGroupPosts` keeps it and lists only titles that
      contain the spaces. */
  lemma BlankQueryOnlyWidensAllPosts(posts: seq<Post>, groupId: string, page: int, pageSize: int)
    requires page >= 1 && pageSize >= 1
    ensures SearchAllPosts(posts, " ", page, pageSize).totalCount == |posts|
    ensures forall i :: 0 <= i < |SearchGroupPosts(posts, groupId, " ", page, pageSize).rows| ==>
              Contains(Lower(SearchGroupPosts(posts, groupId, " ", page, pageSize).rows[i].title), " ")
  {
    var r := SearchGroupPosts(posts, groupId, " ", page, pageSize);
    assert Lower(" ") == " ";
  }
}
