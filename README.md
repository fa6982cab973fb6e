# Heading slugs and heading ids of the anaconda documentation app

This project models the one piece of real logic in `anaconda/utils.py` of the
python-cheat-sheet documentation application, and proves properties of it:

- **The slug generator.** `__kebab_case_word__` turns one word into kebab case.
  It drops every character that is not a word character. It turns each
  uppercase letter into a hyphen plus the lowercase letter. Then it trims one
  leading hyphen. `kebab_case` splits a string at every single space, hyphen or
  underscore, converts each segment with `__kebab_case_word__`, and joins the
  results with hyphens. Module `Slug` (`kebab_case.dfy`) has them as
  `KebabCaseWord` and `KebabCase`.
- **Heading ids.** `__add_header_ids__` walks the parsed HTML fragment once per
  name in `__HEADING_TAGS__`. Every element with that name, at any depth, gets
  its `id` attribute set to `__kebab_case_word__` of its text. Any earlier id is
  overwritten. The fragment is changed in place and returned. The heading list
  is `h1`–`h5` followed by the literal `g6`, so `h6` elements never get an id
  and `g6` elements do. The model keeps this as written.

Module `Html` (`html.dfy`) holds the fragment as a tree of `Node`s. It defines
an element's text the way `tag.text` reads it, from all text below the element.
It also defines `Flatten`, which lists the elements at any depth in document
order as `Tag` records (name, attributes, text, depth). Module `HeaderIds`
(`header_ids.dfy`) holds the imperative part. `Fragment` is a class over an
`array<Tag>`. `AddHeaderIds` updates that array in place with the nested loops
of the source. It is proved equal to `StampAll` of the old records. The lemmas
about `StampAll` state what the source promises. `StampTree` does the same
update on the tree and serves as a reference definition. `FlattenStampTree`
proves that updating the records in document order gives the records of the
updated tree. This holds because setting attributes never changes any text
(`StampTreeKeepsText`).
`AddHeaderIdsToTree` puts the pieces together. It builds the fragment of a
parsed tree, runs `AddHeaderIds` on it, and ends with the records of the updated
tree.

Character classes are ASCII. A word character is `A`–`Z`, `a`–`z`, `0`–`9` or
`_`. An uppercase letter is `A`–`Z`, and `lower()` adds 32 to it.

Behaviour of the code worth knowing, which the model keeps:

- `kebab_case` cuts at every single separator. Runs of separators are not
  merged, so two separators in a row give an empty segment and a `--` in the
  output.
- Heading ids come from `__kebab_case_word__` of the whole heading text, not
  from `kebab_case`. Spaces and punctuation are dropped, and the hyphens come
  only from capitals: `Greetings, Starfighter!` gives `greetings-starfighter`.
- `h6` is not in the heading list. `g6` is.

## Model

| member | source | states |
|---|---|---|
| `Slug.NormalizeWordChars` | anaconda/utils.py:13 | the filtered word holds only word characters |
| `Slug.NormalizeCounts` | anaconda/utils.py:13 | the filtered word holds each word character exactly as often as the input does, and no other character |
| `Slug.NormalizeIdentity` | anaconda/utils.py:13 | a word made only of word characters passes the filter unchanged |
| `Slug.NormalizeDropsAll` | anaconda/utils.py:13 | a string with no word character filters to the empty string |
| `Slug.HyphenateLength` | anaconda/utils.py:14 | the generator output is longer than its input by exactly the number of uppercase letters |
| `Slug.HyphenateShape` | anaconda/utils.py:14 | on a filtered word the generator emits no uppercase letter and only word characters and hyphens, and every hyphen directly precedes a lowercase letter |
| `Slug.HyphenateIdentity` | anaconda/utils.py:14 | a string without uppercase letters passes the generator unchanged |
| `Slug.KebabCaseWordShape` | anaconda/utils.py:12-16 | the output has no uppercase letter and only word characters and hyphens; it never starts or ends with a hyphen and never holds `--`; each hyphen directly precedes a lowercase letter |
| `Slug.KebabCaseWordLength` | anaconda/utils.py:12-16 | output length = length of the filtered word + its uppercase letters − 1 if it starts with an uppercase letter, so only the first hyphen is trimmed |
| `Slug.KebabCaseWordFixedPoint` | anaconda/utils.py:12-16 | a word of lowercase letters and digits is its own conversion |
| `Slug.PunctuationDropped` | anaconda/utils.py:13 | inserting characters that are not word characters anywhere does not change the conversion |
| `Slug.KebabCaseWordAtCapital` | anaconda/utils.py:14-16 | when both halves keep a word character and the filtered second half starts with a capital, the word converts half by half with one hyphen between the halves |
| `Slug.CapitalizedWord` | anaconda/utils.py:14-16 | a capital followed by lowercase letters converts to the same word all in lowercase, with no hyphen |
| `Slug.Split` | anaconda/utils.py:38 | `n` separators give `n + 1` segments |
| `Slug.SegmentChars` | anaconda/utils.py:38 | every character of a segment is a character of the input and no segment holds a separator |
| `Slug.SplitNoSeparator` | anaconda/utils.py:38 | a string without separators is a single segment |
| `Slug.SplitAtSeparator` | anaconda/utils.py:38 | a separator cuts the split in two: `split(a + c + b) == split(a) + split(b)` |
| `Slug.JoinSplit` | anaconda/utils.py:38-41 | joining the segments with `-` gives the input with each separator replaced by `-` |
| `Slug.SplitJoin` | anaconda/utils.py:38-41 | splitting a `-`-join of a non-empty list of separator-free segments gives the segments back |
| `Slug.KebabCaseEmpty` | anaconda/utils.py:19-41 | `kebab_case("") == ""` |
| `Slug.KebabCaseOfWord` | anaconda/utils.py:38-41 | a string without separators converts exactly as `__kebab_case_word__` does |
| `Slug.KebabCaseAtSeparator` | anaconda/utils.py:38-41 | each separator becomes one hyphen and both sides convert independently |
| `Slug.KebabCaseDoubleSeparator` | anaconda/utils.py:38-41 | two separators in a row give an empty segment, and so a `--` in the output |
| `Slug.KebabCaseAlphabet` | anaconda/utils.py:38-41 | the output holds only lowercase letters, digits and hyphens |
| `Slug.KebabCaseFixedPoint` | anaconda/utils.py:38-41 | a string of lowercase letters, digits and hyphens is its own `kebab_case` |
| `Slug.KebabCaseIdempotent` | anaconda/utils.py:19-41 | `kebab_case(kebab_case(s)) == kebab_case(s)` for every `s` |
| `Slug.CamelCaseExample` | anaconda/utils.py:19-41 | `kebab_case("CamelCase") == "camel-case"` |
| `Slug.SnakeCaseExample` | anaconda/utils.py:19-41 | `kebab_case("snake_case") == "snake-case"` |
| `Slug.GreetingsProgramsExample` | anaconda/utils.py:19-41 | `kebab_case("Greetings, Programs!") == "greetings-programs"` |
| `Slug.GreetingsStarfighterExample` | anaconda/utils.py:56 | the heading text `Greetings, Starfighter!` gets the id `greetings-starfighter` |
| `Html.FlattenCountsEveryElement` | anaconda/utils.py:55 | the document-order listing has exactly as many records as the tree has elements, however deep |
| `Html.FlattenListsElement` | anaconda/utils.py:55 | the record of each element (name, attributes, text, depth) is in the listing, and so is every record listed below it |
| `HeaderIds.Fragment.FromTree` | anaconda/utils.py:44 | a fragment built from a parsed tree holds its elements in document order |
| `HeaderIds.AddHeaderIds` | anaconda/utils.py:44-58 | the nested loops leave the fragment's records equal to `StampAll` of the old records, and the same fragment is returned |
| `HeaderIds.StampAllEffect` | anaconda/utils.py:54-56 | every element named in the heading list has `id` = the word conversion of its text, whatever id it had; its name, text, depth and other attributes are unchanged; every other element is unchanged |
| `HeaderIds.H6Untouched` | anaconda/utils.py:9 | `h6` elements are never changed; `g6` elements get the id |
| `HeaderIds.StampAllIdempotent` | anaconda/utils.py:54-58 | running the update twice gives the same result as running it once |
| `HeaderIds.StampTreeKeepsText` | anaconda/utils.py:56 | setting ids leaves the text of the tree unchanged |
| `HeaderIds.FlattenStampTree` | anaconda/utils.py:54-56 | updating the records in document order gives the records of the tree updated at every depth |
| `HeaderIds.StampTreeHeadingsHaveIds` | anaconda/utils.py:54-56 | after the update, every heading element at any depth has the id of its own text |
| `HeaderIds.AddHeaderIdsToTree` | anaconda/utils.py:44-58 | building the fragment of a parsed tree and running the update on it gives the records of the tree updated at every depth |
| `HeaderIds.GreetingsPageExample` | anaconda/utils/render_utils_test.py:35-37 | on the page of the Markdown test, a tree of an `h1` and a paragraph, the `h1` gets `id="greetings-starfighter"` and the paragraph is unchanged; the test itself runs `add_header_ids` of anaconda/utils/html_utils.py and is used only as the expected output |

## Left out

- `render_markdown` (anaconda/utils.py:61-77) is not modelled. It only chains foreign calls: template rendering, the Markdown converter, HTML parsing and serialisation, and `Markup`.
- anaconda/utils/render_utils.py is not part of this model. Its `parse_markdown` and `render_markdown` chain the same libraries, and `add_header_ids` in anaconda/utils/html_utils.py is not among the files modelled.
- Building the navigation tree (`render_page`) is not part of this model, because its source is not among the files modelled.
- The Flask application, configuration, views and route handlers are not modelled (anaconda/__init__.py, anaconda/views.py, anaconda/python_doc.py).
- Template-not-found errors are not modelled. Jinja2 raises them, not this code.
- Comment strings and the other special string nodes of the parsed tree are not modelled. A `Node` is only a text node or an element. So the model has no counterpart for a comment inside an element, which `tag.text` skips when it reads the element's text.
- HTML parsing is not modelled. `Fragment.FromTree` starts from an already parsed tree. Text nodes appear only through the `text` of their enclosing elements.
- The expected output at anaconda/utils_test.py:34 (an `h1` without an id) is not used. It contradicts `render_markdown` at anaconda/utils.py:75.
- Unicode is not modelled. Python's `\w`, `isupper` and `lower` are taken on ASCII only. A non-ASCII letter is treated as a non-word character and dropped, whereas Python keeps it, and `lower()` expanding one character into several is not modelled.
- `find_all` is modelled by the document-order listing `Flatten`. Identity and aliasing of the Python tag objects are not modelled: each element is one array slot.
