/**
  The `WHERE` clauses of the selection query in main.py:
  `deleteat = 0 AND TRIM(message) <> ''`, and `channelid = %s` when a
  channel id is configured. Comparisons with NULL are not true under SQL's
  three-valued logic, so a row whose `deleteat` or `message` is NULL is
  never selected, nor, when a channel id is configured, one whose
  `channelid` is NULL.
 */
module Selection {
  import opened Options
  import opened Text
  import opened Pipeline

  /** A row of the posts table, with NULL as `None`. */
  datatype Row = Row(id: PostId, channelId: Option<string>, deleteAt: Option<int>, message: Option<string>)

  /**
    `if CHANNEL_ID:` — an unset or empty channel id selects every channel;
    otherwise `channelid = %s` holds, which a NULL `channelid` never meets.
   */
  predicate InChannel(row: Row, channel: Option<string>)
  {
    channel.None? || channel.value == "" || row.channelId == Some(channel.value)
  }

  /** The `WHERE` clause. */
  predicate Selected(row: Row, channel: Option<string>)
  {
    && row.deleteAt == Some(0)
    && row.message.Some? && SqlTrim(row.message.value) != ""
    && InChannel(row, channel)
  }

  /** The post a selected row yields. */
  function ToPost(row: Row): Post
    requires row.message.Some?
  {
    Post(row.id, row.message.value)
  }

  /** `SELECT id, message FROM posts WHERE …`: the selected rows, in table order. */
  function SelectPosts(rows: seq<Row>, channel: Option<string>): (r: seq<Post>)
    ensures |r| <= |rows|
    decreases |rows|
  {
    if |rows| == 0 then []
    else if Selected(rows[0], channel) then [ToPost(rows[0])] + SelectPosts(rows[1..], channel)
    else SelectPosts(rows[1..], channel)
  }

  /** Every row that passes the `WHERE` clause yields a selected post. */
  lemma {:induction false} SelectPostsKeeps(rows: seq<Row>, channel: Option<string>, j: nat)
    requires j < |rows| && Selected(rows[j], channel)
    ensures ToPost(rows[j]) in SelectPosts(rows, channel)
    decreases j
  {
    var head := SelectHead(rows, channel);
    if j > 0 {
      assert rows[1..][j - 1] == rows[j];
      SelectPostsKeeps(rows[1..], channel, j - 1);
    } else {
      assert head == [ToPost(rows[0])];
    }
  }

  /** Every selected post comes from a row that passes the `WHERE` clause. */
  lemma {:induction false} SelectPostsSource(rows: seq<Row>, channel: Option<string>, p: Post) returns (j: nat)
    requires p in SelectPosts(rows, channel)
    ensures j < |rows| && Selected(rows[j], channel) && p == ToPost(rows[j])
    decreases |rows|
  {
    var head := SelectHead(rows, channel);
    if p in head {
      j := 0;
    } else {
      var k := SelectPostsSource(rows[1..], channel, p);
      assert rows[1..][k] == rows[k + 1];
      j := k + 1;
    }
  }

  /** What the first row contributes to the selection, followed by the selection of the others. */
  lemma SelectHead(rows: seq<Row>, channel: Option<string>) returns (head: seq<Post>)
    requires |rows| > 0
    ensures SelectPosts(rows, channel) == head + SelectPosts(rows[1..], channel)
    ensures forall p :: p in head ==> Selected(rows[0], channel) && p == ToPost(rows[0])
    ensures Selected(rows[0], channel) ==> head == [ToPost(rows[0])]
  {
    head := if Selected(rows[0], channel) then [ToPost(rows[0])] else [];
  }

  /** A post is selected exactly when some row that passes the `WHERE` clause yields it. */
  lemma SelectPostsExactly(rows: seq<Row>, channel: Option<string>, p: Post)
    ensures p in SelectPosts(rows, channel) <==>
              exists j :: 0 <= j < |rows| && Selected(rows[j], channel) && p == ToPost(rows[j])
  {
    if p in SelectPosts(rows, channel) {
      var j := SelectPostsSource(rows, channel, p);
    }
    forall j | 0 <= j < |rows| && Selected(rows[j], channel) && p == ToPost(rows[j])
      ensures p in SelectPosts(rows, channel)
    {
      SelectPostsKeeps(rows, channel, j);
    }
  }

  /** Every selected message has a character other than a space. */
  lemma SelectedNotBlank(rows: seq<Row>, channel: Option<string>)
    ensures forall p :: p in SelectPosts(rows, channel) ==>
              exists i :: 0 <= i < |p.message| && p.message[i] != ' '
  {
    forall p | p in SelectPosts(rows, channel)
      ensures exists i :: 0 <= i < |p.message| && p.message[i] != ' '
    {
      SelectPostsExactly(rows, channel, p);
      var j :| 0 <= j < |rows| && Selected(rows[j], channel) && p == ToPost(rows[j]);
    }
  }
}
