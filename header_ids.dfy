/**
 * `__add_header_ids__` of anaconda/utils.py: for each name in the heading tag
 * list, every element of the fragment with that name, at any depth, gets the
 * attribute `id` set to `__kebab_case_word__` of its text, replacing any id it
 * had. The fragment is changed in place and returned.
 */
module HeaderIds {
  import opened Slug
  import opened Html

  /**
   * `__HEADING_TAGS__`: `h1` to `h5` and then `g6`, not `h6`. So `h6` elements
   * are never given an id while `g6` elements are.
   */
  const HeadingTags: seq<string> := ["h1", "h2", "h3", "h4", "h5", "g6"]

  /** `tag.attrs['id'] = __kebab_case_word__(tag.text)` on one element record. */
  function WithId(t: Tag): Tag
  {
    t.(attrs := t.attrs["id" := KebabCaseWord(t.text)])
  }

  /** The record after the passes for the tag names in `names`. */
  function StampWith(names: seq<string>, t: Tag): Tag
  {
    if t.name in names then WithId(t) else t
  }

  /** The fragment's records after `__add_header_ids__`. */
  function StampAll(ts: seq<Tag>): seq<Tag>
  {
    seq(|ts|, i requires 0 <= i < |ts| => StampWith(HeadingTags, ts[i]))
  }

  /** `after` differs from `before` at most in its `id` attribute. */
  ghost predicate OnlyIdChanged(before: Tag, after: Tag)
  {
    && after.name == before.name
    && after.text == before.text
    && after.depth == before.depth
    && (forall k :: k != "id" ==> (k in after.attrs <==> k in before.attrs))
    && (forall k :: k != "id" && k in before.attrs ==> after.attrs[k] == before.attrs[k])
  }

  /** The parsed fragment: its elements in document order, updated in place. */
  class Fragment {
    var tags: array<Tag>

    /** The fragment of a parsed node list. */
    constructor FromTree(roots: seq<Node>)
      ensures fresh(tags)
      ensures tags[..] == Flatten(roots, 0)
    {
      var flat := Flatten(roots, 0);
      tags := new Tag[|flat|](i requires 0 <= i < |flat| => flat[i]);
    }
  }

  /**
   * `__add_header_ids__`: one pass over the fragment per name of `HeadingTags`,
   * setting the id of every element with that name; returns the same fragment.
   */
  method AddHeaderIds(fragment: Fragment) returns (r: Fragment)
    modifies fragment.tags
    ensures r == fragment
    ensures fragment.tags[..] == StampAll(old(fragment.tags[..]))
  {
    var tags := fragment.tags;
    for k := 0 to |HeadingTags|
      invariant forall j :: 0 <= j < tags.Length ==> tags[j] == StampWith(HeadingTags[..k], old(tags[j]))
    {
      var heading := HeadingTags[k];
      assert HeadingTags[..k + 1] == HeadingTags[..k] + [heading];
      for i := 0 to tags.Length
        invariant forall j :: 0 <= j < i ==> tags[j] == StampWith(HeadingTags[..k + 1], old(tags[j]))
        invariant forall j :: i <= j < tags.Length ==> tags[j] == StampWith(HeadingTags[..k], old(tags[j]))
      {
        if tags[i].name == heading {
          tags[i] := WithId(tags[i]);
        }
      }
    }
    assert HeadingTags[..|HeadingTags|] == HeadingTags;
    r := fragment;
  }

  /**
   * After `__add_header_ids__` every element whose name is in `HeadingTags` has
   * `id` equal to the word conversion of its text, whatever id it had before,
   * and nothing else about it changed; every other element is left as it was.
   */
  lemma StampAllEffect(ts: seq<Tag>)
    ensures |StampAll(ts)| == |ts|
    ensures forall i :: 0 <= i < |ts| && ts[i].name in HeadingTags ==>
              && "id" in StampAll(ts)[i].attrs
              && StampAll(ts)[i].attrs["id"] == KebabCaseWord(ts[i].text)
              && OnlyIdChanged(ts[i], StampAll(ts)[i])
    ensures forall i :: 0 <= i < |ts| && ts[i].name !in HeadingTags ==> StampAll(ts)[i] == ts[i]
  {
  }

  /** `h6` elements are never touched; `g6` elements are. */
  lemma H6Untouched(ts: seq<Tag>)
    ensures forall i :: 0 <= i < |ts| && ts[i].name == "h6" ==> StampAll(ts)[i] == ts[i]
    ensures forall i :: 0 <= i < |ts| && ts[i].name == "g6" ==>
              StampAll(ts)[i].attrs == ts[i].attrs["id" := KebabCaseWord(ts[i].text)]
  {
  }

  /** Running `__add_header_ids__` a second time changes nothing. */
  lemma StampAllIdempotent(ts: seq<Tag>)
    ensures StampAll(StampAll(ts)) == StampAll(ts)
  {
    assert forall i :: 0 <= i < |ts| ==> StampAll(StampAll(ts))[i] == StampAll(ts)[i];
  }

  // ---------------------------------------------------------------------------
  // The same operation on the tree, as a reference definition
  // ---------------------------------------------------------------------------

  /** Every heading element of the tree, at any depth, gets its id. */
  function StampTree(nodes: seq<Node>): seq<Node>
  {
    if nodes == [] then []
    else
      [match nodes[0]
       case Text(t) => Text(t)
       case Element(n, a, cs) =>
         Element(n, if n in HeadingTags then a["id" := KebabCaseWord(TextOf(cs))] else a, StampTree(cs))]
      + StampTree(nodes[1..])
  }

  /** Setting attributes does not change any text: the text of the tree is kept. */
  lemma {:induction false} StampTreeKeepsText(nodes: seq<Node>)
    ensures TextOf(StampTree(nodes)) == TextOf(nodes)
  {
    if nodes != [] {
      StampTreeKeepsText(nodes[1..]);
      var stamped := StampTree(nodes);
      assert stamped == [stamped[0]] + StampTree(nodes[1..]);
      TextOfCons(stamped[0], StampTree(nodes[1..]));
      match nodes[0]
      case Text(t) =>
      case Element(n, a, cs) => StampTreeKeepsText(cs);
    }
  }

  lemma TextOfCons(x: Node, rest: seq<Node>)
    ensures TextOf([x] + rest) ==
      (match x case Text(t) => t case Element(_, _, cs) => TextOf(cs)) + TextOf(rest)
  {
  }

  lemma StampAllAppend(xs: seq<Tag>, ys: seq<Tag>)
    ensures StampAll(xs + ys) == StampAll(xs) + StampAll(ys)
  {
  }

  /**
   * Updating the records in document order does what updating the tree does:
   * the records of the updated tree are the updated records of the tree.
   */
  lemma {:induction false} FlattenStampTree(nodes: seq<Node>, depth: nat)
    ensures Flatten(StampTree(nodes), depth) == StampAll(Flatten(nodes, depth))
  {
    if nodes != [] {
      FlattenStampTree(nodes[1..], depth);
      var stamped := StampTree(nodes);
      assert stamped == [stamped[0]] + StampTree(nodes[1..]);
      FlattenCons(stamped[0], StampTree(nodes[1..]), depth);
      match nodes[0]
      case Text(t) =>
      case Element(n, a, cs) =>
        FlattenStampTree(cs, depth + 1);
        StampTreeKeepsText(cs);
        var t := Tag(n, a, TextOf(cs), depth);
        StampAllAppend([t], Flatten(cs, depth + 1));
        StampAllAppend([t] + Flatten(cs, depth + 1), Flatten(nodes[1..], depth));
    }
  }

  lemma FlattenCons(x: Node, rest: seq<Node>, depth: nat)
    ensures Flatten([x] + rest, depth) ==
      (match x
       case Text(_) => []
       case Element(n, a, cs) => [Tag(n, a, TextOf(cs), depth)] + Flatten(cs, depth + 1))
      + Flatten(rest, depth)
  {
  }

  /** Every heading element of the node list, at any depth, has the id of its text. */
  predicate HeadingsHaveIds(nodes: seq<Node>)
  {
    forall i :: 0 <= i < |nodes| ==>
      match nodes[i]
      case Text(_) => true
      case Element(n, a, cs) =>
        && (n in HeadingTags ==> "id" in a && a["id"] == KebabCaseWord(TextOf(cs)))
        && HeadingsHaveIds(cs)
  }

  /** After the update, every heading at any depth carries the id of its text. */
  lemma {:induction false} StampTreeHeadingsHaveIds(nodes: seq<Node>)
    ensures HeadingsHaveIds(StampTree(nodes))
  {
    if nodes != [] {
      StampTreeHeadingsHaveIds(nodes[1..]);
      var s := StampTree(nodes);
      var rest := StampTree(nodes[1..]);
      assert s == [s[0]] + rest;
      match nodes[0]
      case Text(t) =>
      case Element(n, a, cs) =>
        StampTreeHeadingsHaveIds(cs);
        StampTreeKeepsText(cs);
      forall i | 0 <= i < |s| ensures
        match s[i]
        case Text(_) => true
        case Element(n, a, cs) =>
          && (n in HeadingTags ==> "id" in a && a["id"] == KebabCaseWord(TextOf(cs)))
          && HeadingsHaveIds(cs)
      {
        if i > 0 {
          assert s[i] == rest[i - 1];
        }
      }
    }
  }

  /**
   * The fragment of a parsed tree after `__add_header_ids__`: the records of the
   * tree with every heading, at any depth, given its id.
   */
  method AddHeaderIdsToTree(roots: seq<Node>) returns (f: Fragment)
    ensures fresh(f) && fresh(f.tags)
    ensures f.tags[..] == Flatten(StampTree(roots), 0)
  {
    f := new Fragment.FromTree(roots);
    f := AddHeaderIds(f);
    FlattenStampTree(roots, 0);
  }

  /**
   * The rendered Markdown page, an `h1` and a paragraph: after the update the
   * `h1` has the id `greetings-starfighter` and the paragraph is left alone.
   * The page and its expected ids are those of the Markdown test in
   * anaconda/utils/render_utils_test.py. That test exercises the `add_header_ids`
   * of anaconda/utils/html_utils.py, so it serves here only as the expected
   * output, which matches what `__add_header_ids__` writes.
   */
  lemma GreetingsPageExample()
    ensures
      var title := "Greetings, Starfighter!";
      var body := "You have been recruited by the Star League to defend the\nfrontier against Xur and the Ko-Dan Armada.";
      var page := [Element("h1", map[], [Text(title)]), Element("p", map[], [Text(body)])];
      Flatten(StampTree(page), 0) ==
        [Tag("h1", map["id" := "greetings-starfighter"], title, 0), Tag("p", map[], body, 0)]
  {
    hide KebabCaseWord, TextOf, Flatten, StampTree;
    var title := "Greetings, Starfighter!";
    var body := "You have been recruited by the Star League to defend the\nfrontier against Xur and the Ko-Dan Armada.";
    var page := [Element("h1", map[], [Text(title)]), Element("p", map[], [Text(body)])];
    GreetingsStarfighterExample();
    FlattenStampTree(page, 0);
    FlattenTwoTextElements("h1", map[], title, "p", map[], body);
    var r := StampAll([Tag("h1", map[], title, 0), Tag("p", map[], body, 0)]);
    assert "h1" in HeadingTags && "p" !in HeadingTags;
    assert r[0] == Tag("h1", map["id" := "greetings-starfighter"], title, 0);
    assert r[1] == Tag("p", map[], body, 0);
  }

  /** The listing of two elements that each hold one text node. */
  lemma FlattenTwoTextElements(n1: string, a1: map<string, string>, x1: string,
                               n2: string, a2: map<string, string>, x2: string)
    ensures Flatten([Element(n1, a1, [Text(x1)]), Element(n2, a2, [Text(x2)])], 0)
         == [Tag(n1, a1, x1, 0), Tag(n2, a2, x2, 0)]
  {
    var e1, e2 := Element(n1, a1, [Text(x1)]), Element(n2, a2, [Text(x2)]);
    assert TextOf([Text(x1)]) == x1;
    assert TextOf([Text(x2)]) == x2;
    FlattenCons(e1, [e2], 0);
    FlattenCons(e2, [], 0);
    assert [e1] + [e2] == [e1, e2] && [e2] + [] == [e2];
  }
}
