/**
 * The parsed HTML fragment that anaconda/utils.py hands to `__add_header_ids__`,
 * reduced to what that function reads and writes: element names, attribute
 * maps, child order and the text of each element.
 */
module Html {

  /** A node of the parsed fragment: a text node or an element with its children. */
  datatype Node =
    | Text(content: string)
    | Element(name: string, attrs: map<string, string>, children: seq<Node>)

  /**
   * The text of a node list: every text node below it, in document order.
   * `tag.text` of an element is the text of its children.
   */
  function TextOf(nodes: seq<Node>): string
  {
    if nodes == [] then ""
    else
      (match nodes[0]
       case Text(t) => t
       case Element(_, _, cs) => TextOf(cs))
      + TextOf(nodes[1..])
  }

  /** One element as `find_all` sees it: its name, attributes, text and nesting depth. */
  datatype Tag = Tag(name: string, attrs: map<string, string>, text: string, depth: nat)

  /**
   * The elements of a node list at any depth, in document order (each element
   * before its descendants), with `depth` counting the enclosing elements.
   */
  function Flatten(nodes: seq<Node>, depth: nat): seq<Tag>
  {
    if nodes == [] then []
    else
      (match nodes[0]
       case Text(_) => []
       case Element(n, a, cs) => [Tag(n, a, TextOf(cs), depth)] + Flatten(cs, depth + 1))
      + Flatten(nodes[1..], depth)
  }

  /** Number of elements in a node list, at any depth. */
  function ElementCount(nodes: seq<Node>): nat
  {
    if nodes == [] then 0
    else
      (match nodes[0]
       case Text(_) => 0
       case Element(_, _, cs) => 1 + ElementCount(cs))
      + ElementCount(nodes[1..])
  }

  /** Every element of the tree, however deep, is listed exactly once. */
  lemma {:induction false} FlattenCountsEveryElement(nodes: seq<Node>, depth: nat)
    ensures |Flatten(nodes, depth)| == ElementCount(nodes)
  {
    if nodes != [] {
      FlattenCountsEveryElement(nodes[1..], depth);
      match nodes[0]
      case Text(_) =>
      case Element(_, _, cs) => FlattenCountsEveryElement(cs, depth + 1);
    }
  }

  /**
   * The record of each element of the list is in the listing, and so is every
   * record listed below it: elements at any depth are all listed.
   */
  lemma {:induction false} FlattenListsElement(nodes: seq<Node>, depth: nat, i: nat)
    requires i < |nodes| && nodes[i].Element?
    ensures Tag(nodes[i].name, nodes[i].attrs, TextOf(nodes[i].children), depth) in Flatten(nodes, depth)
    ensures forall t :: t in Flatten(nodes[i].children, depth + 1) ==> t in Flatten(nodes, depth)
  {
    if i > 0 {
      FlattenListsElement(nodes[1..], depth, i - 1);
    }
  }
}
