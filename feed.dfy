/**
  The `create-rss-feed` transform (gulpfile.babel.js:386-465): the entries of
  `words.json`, newest first, as an RSS 2.0 document with a `guff:` namespace
  for the dictionary's own fields.

  The source builds the document by appending to one string. `CreateRssFeed`
  does the same and is proved to produce the rendering of an element tree,
  `Document`, on which the structure of the feed is stated. Rendering escapes
  nothing: the texts are exactly what the source interpolates, so the title,
  slugs and words appear unescaped, and only the optional fields go through
  the escape function.
*/
module Feed {
  import opened JsValues
  import opened Ordering
  import opened Words

  /** The kinds of element the feed uses. */
  datatype Kind =
    | Rss | Channel | Title | Link | Description | AtomLink | Item | Guid | PubDate
    | FormattedDate | Slug | WordId | SubmissionDate | Definition | UsageExample | LucyCommentary
    | CommentUrl | Perpetrator | UsageSource | SourceUrl | Tweet | PreviousWord | NextWord
    | RelatedWords | RelatedWord | Word

  /** An element name: which element it is and how the feed spells it. */
  datatype Tag = Tag(kind: Kind, name: string)

  const RssTag := Tag(Rss, "rss")
  const ChannelTag := Tag(Channel, "channel")
  const TitleTag := Tag(Title, "title")
  const LinkTag := Tag(Link, "link")
  const DescriptionTag := Tag(Description, "description")
  const AtomLinkTag := Tag(AtomLink, "atom:link")
  const ItemTag := Tag(Item, "item")
  const GuidTag := Tag(Guid, "guid")
  const PubDateTag := Tag(PubDate, "pubDate")
  const FormattedDateTag := Tag(FormattedDate, "guff:formatteddate")
  const SlugTag := Tag(Slug, "guff:slug")
  const WordIdTag := Tag(WordId, "guff:wordid")
  const SubmissionDateTag := Tag(SubmissionDate, "guff:submissiondate")
  const DefinitionTag := Tag(Definition, "guff:definition")
  const UsageExampleTag := Tag(UsageExample, "guff:usageexample")
  const LucyCommentaryTag := Tag(LucyCommentary, "guff:lucycommentary")
  const CommentUrlTag := Tag(CommentUrl, "guff:commenturl")
  const PerpetratorTag := Tag(Perpetrator, "guff:perpetrator")
  const UsageSourceTag := Tag(UsageSource, "guff:usagesource")
  const SourceUrlTag := Tag(SourceUrl, "guff:sourceurl")
  const TweetTag := Tag(Tweet, "guff:tweet")
  const PreviousWordTag := Tag(PreviousWord, "guff:previousword")
  const NextWordTag := Tag(NextWord, "guff:nextword")
  const RelatedWordsTag := Tag(RelatedWords, "guff:relatedwords")
  const RelatedWordTag := Tag(RelatedWord, "guff:relatedword")
  const WordTag := Tag(Word, "guff:word")

  /** An element tree as the feed spells it out. */
  datatype Node =
    | Element(tag: Tag, attrs: string, children: seq<Node>)
      /** `<tag attrs />` */
    | EmptyElement(tag: Tag, attrs: string)
      /** `<tag>text</tag>` */
    | Leaf(tag: Tag, text: string)

  /** The text of a node; `attrs` is written as is, right after the name. */
  function Render(n: Node): string
    decreases n, 1
  {
    match n
    case Element(tag, attrs, children) => StartTag(tag, attrs) + RenderAll(children) + EndTag(tag)
    case EmptyElement(tag, attrs) => "<" + tag.name + attrs + " />"
    case Leaf(tag, text) => StartTag(tag, "") + text + EndTag(tag)
  }

  function StartTag(tag: Tag, attrs: string): string {
    "<" + tag.name + attrs + ">"
  }

  function EndTag(tag: Tag): string {
    "</" + tag.name + ">"
  }

  /** The texts of `ns`, one after the other. */
  function RenderAll(ns: seq<Node>): string
    decreases ns, 0
  {
    if ns == [] then "" else Render(ns[0]) + RenderAll(ns[1..])
  }

  /** Rendering a concatenation renders the parts one after the other. */
  lemma {:induction false} RenderAllAppend(a: seq<Node>, b: seq<Node>)
    ensures RenderAll(a + b) == RenderAll(a) + RenderAll(b)
  {
    if a == [] {
      assert a + b == b;
    } else {
      assert (a + b)[1..] == a[1..] + b;
      RenderAllAppend(a[1..], b);
    }
  }

  /** The element kinds of `ns`, in order. */
  function Names(ns: seq<Node>): (r: seq<Kind>)
    ensures |r| == |ns|
  {
    if ns == [] then [] else [ns[0].tag.kind] + Names(ns[1..])
  }

  const RssTitle := "Guffipedia"
  const RssLink := "https://ig.ft.com/sites/guffipedia/"
  const RssDescription := "Lucy Kellaway\U{2019}s dictionary of business jargon and corporate nonsense"

  const Prolog := "<?xml version=\"1.0\"?>"
  const RssAttrs := " version=\"2.0\" xmlns:atom=\"http://www.w3.org/2005/Atom\" xmlns:guff=\"" + RssLink + "\""
  const AtomLinkAttrs := " href=\"" + RssLink + "rss.xml\" rel=\"self\" type=\"application/rss+xml\""

  /** The channel's fixed metadata, ahead of the items. */
  function ChannelHead(): seq<Node> {
    [Leaf(TitleTag, RssTitle)] + [Leaf(LinkTag, RssLink)] + [Leaf(DescriptionTag, RssDescription)]
    + [EmptyElement(AtomLinkTag, AtomLinkAttrs)]
  }

  /** An optional field: its element, with the escaped text, only when the field is truthy. */
  function Optional(tag: Tag, f: Field, ext: Externals): seq<Node> {
    if Truthy(f) then [Leaf(tag, ext.escape(f.s))] else []
  }

  /** `<tag><guff:slug>…</guff:slug><guff:word>…</guff:word></tag>`. */
  function PointerNode(tag: Tag, p: Ref): Node {
    Element(tag, "", [Leaf(SlugTag, p.slug), Leaf(WordTag, p.word)])
  }

  /** One `<guff:relatedword>` per related word, in order. */
  function RelatedNodes(related: seq<Ref>): (r: seq<Node>)
    ensures |r| == |related| && forall k :: 0 <= k < |related| ==> r[k] == PointerNode(RelatedWordTag, related[k])
  {
    seq(|related|, k requires 0 <= k < |related| => PointerNode(RelatedWordTag, related[k]))
  }

  /** One related word more, one `<guff:relatedword>` more. */
  lemma RelatedNodesSnoc(related: seq<Ref>, k: int)
    requires 0 <= k < |related|
    ensures RelatedNodes(related[..k + 1]) == RelatedNodes(related[..k]) + [PointerNode(RelatedWordTag, related[k])]
  {
    var a := RelatedNodes(related[..k + 1]);
    var b := RelatedNodes(related[..k]) + [PointerNode(RelatedWordTag, related[k])];
    assert |a| == |b|;
    forall i | 0 <= i < |a| ensures a[i] == b[i] {
      assert related[..k + 1][i] == related[i];
    }
  }

  /** The related-words block, left out when there are none. */
  function RelatedBlock(related: seq<Ref>): seq<Node> {
    if |related| > 0 then [Element(RelatedWordsTag, "", RelatedNodes(related))] else []
  }

  /** The item's leading elements, always present (gulpfile.babel.js:406-414). */
  function ItemHeader(slug: string, r: Record): seq<Node> {
    [Leaf(TitleTag, r.word)]
    + [Leaf(DescriptionTag, r.tweettextrss)]
    + [Leaf(LinkTag, RssLink + slug + "/")]
    + [Leaf(GuidTag, RssLink + slug + "/")]
    + [Leaf(PubDateTag, r.pubdate + "/")]
    + [Leaf(FormattedDateTag, r.formatteddate)]
    + [Leaf(SlugTag, r.slug)]
    + [Leaf(WordIdTag, Show(r.wordid))]
    + [Leaf(SubmissionDateTag, Show(r.submissiondate))]
  }

  /** The free-text fields: escaped and only when truthy, except the comment address (gulpfile.babel.js:415-439). */
  function ItemTexts(r: Record, ext: Externals): seq<Node> {
    Optional(DefinitionTag, r.definition, ext)
    + Optional(UsageExampleTag, r.usageexample, ext)
    + Optional(LucyCommentaryTag, r.lucycommentary, ext)
    + [Leaf(CommentUrlTag, Show(r.commenturl))]
    + Optional(PerpetratorTag, r.perpetrator, ext)
    + Optional(UsageSourceTag, r.usagesource, ext)
    + Optional(SourceUrlTag, r.sourceurl, ext)
  }

  /** The tweet and the links to other entries (gulpfile.babel.js:440-458). */
  function ItemLinks(r: Record): seq<Node> {
    [Leaf(TweetTag, r.tweettextrss)]
    + [PointerNode(PreviousWordTag, r.previousWord)]
    + [PointerNode(NextWordTag, r.nextWord)]
    + RelatedBlock(r.relatedwords)
  }

  /** The children of the `<item>` for the entry `r` stored under `slug`, in the order the source writes them. */
  function ItemChildren(slug: string, r: Record, ext: Externals): seq<Node> {
    ItemHeader(slug, r) + ItemTexts(r, ext) + ItemLinks(r)
  }

  function ItemTree(slug: string, r: Record, ext: Externals): Node {
    Element(ItemTag, "", ItemChildren(slug, r, ext))
  }

  /** One item per slug of `order`, in that order. */
  function Items(order: seq<string>, entries: map<string, Record>, ext: Externals): (r: seq<Node>)
    requires forall s :: s in order ==> s in entries
    ensures |r| == |order| && forall k :: 0 <= k < |order| ==> r[k] == ItemTree(order[k], entries[order[k]], ext)
  {
    seq(|order|, k requires 0 <= k < |order| => ItemTree(order[k], entries[order[k]], ext))
  }

  /** The order of the items: the keys, newest submission first. */
  function FeedOrder(words: WordCollection, ext: Externals): (r: seq<string>)
    requires words.Valid()
    ensures forall s :: s in r <==> s in words.entries
  {
    ByDateOfValid(words, ext);
    ByDate(words, ext)
  }

  /** One slug more, one item more. */
  lemma ItemsSnoc(order: seq<string>, entries: map<string, Record>, ext: Externals, k: int)
    requires forall s :: s in order ==> s in entries
    requires 0 <= k < |order|
    ensures Items(order[..k + 1], entries, ext) == Items(order[..k], entries, ext) + [ItemTree(order[k], entries[order[k]], ext)]
  {
    var a := Items(order[..k + 1], entries, ext);
    var b := Items(order[..k], entries, ext) + [ItemTree(order[k], entries[order[k]], ext)];
    assert a[..k] == Items(order[..k], entries, ext) by {
      assert order[..k + 1][..k] == order[..k];
      ItemsPrefix(order[..k + 1], entries, ext, k);
    }
    assert a == a[..k] + [a[k]];
  }

  /** The items of a prefix are a prefix of the items. */
  lemma ItemsPrefix(order: seq<string>, entries: map<string, Record>, ext: Externals, k: int)
    requires forall s :: s in order ==> s in entries
    requires 0 <= k <= |order|
    ensures Items(order, entries, ext)[..k] == Items(order[..k], entries, ext)
  {
  }

  /** The `<rss>` element: the channel metadata, then one item per entry, newest first. */
  function RssTree(words: WordCollection, ext: Externals): Node
    requires words.Valid()
  {
    Element(RssTag, RssAttrs,
      [Element(ChannelTag, "", ChannelHead() + Items(FeedOrder(words, ext), words.entries, ext))])
  }

  /** `rss.xml`. */
  function Document(words: WordCollection, ext: Externals): string
    requires words.Valid()
  {
    Prolog + Render(RssTree(words, ext))
  }

  /** Rendering one more node appends its text. */
  lemma RenderSnoc(kids: seq<Node>, n: Node)
    ensures RenderAll(kids + [n]) == RenderAll(kids) + Render(n)
  {
    RenderAllAppend(kids, [n]);
    assert RenderAll([n]) == Render(n) + RenderAll([]);
  }

  /** `base` followed by the text of `kids`, then by that of `n`, is `base` followed by the text of `kids + [n]`. */
  lemma Extend(base: string, kids: seq<Node>, n: Node)
    ensures base + RenderAll(kids) + Render(n) == base + RenderAll(kids + [n])
  {
    RenderSnoc(kids, n);
    Regroup3(base, RenderAll(kids), Render(n));
  }

  /** `<tag>text</tag>` */
  lemma LeafText(tag: Tag, text: string)
    ensures Render(Leaf(tag, text)) == "<" + tag.name + ">" + text + "</" + tag.name + ">"
  {
  }

  /** The text of an element holding a single element. */
  lemma NestedText(outer: Tag, attrs: string, inner: Tag, kids: seq<Node>)
    ensures Render(Element(outer, attrs, [Element(inner, "", kids)]))
         == StartTag(outer, attrs) + (StartTag(inner, "") + RenderAll(kids) + EndTag(inner)) + EndTag(outer)
  {
    var child := Element(inner, "", kids);
    assert [child][1..] == [];
    assert RenderAll([child]) == Render(child) + "";
    assert Render(child) + "" == Render(child);
  }

  /** The document: the opening tags, the channel's children, the closing tags. */
  lemma DocumentText(words: WordCollection, ext: Externals)
    requires words.Valid()
    ensures Document(words, ext) == Prolog + (StartTag(RssTag, RssAttrs) + (StartTag(ChannelTag, "")
        + RenderAll(ChannelHead() + Items(FeedOrder(words, ext), words.entries, ext)) + EndTag(ChannelTag)) + EndTag(RssTag))
  {
    NestedText(RssTag, RssAttrs, ChannelTag, ChannelHead() + Items(FeedOrder(words, ext), words.entries, ext));
  }

  /** Regrouping the parts of the document. */
  lemma Regroup(p: string, s: string, s': string, body: string, e': string, e: string)
    ensures p + s + s' + body + e' + e == p + (s + (s' + body + e') + e)
  {
  }

  /** The document's outer tags as the builder writes them. */
  lemma FeedTagsSpelled(attrs: string)
    ensures StartTag(RssTag, attrs) == "<rss" + attrs + ">"
    ensures StartTag(ChannelTag, "") == "<channel>" && EndTag(ChannelTag) == "</channel>" && EndTag(RssTag) == "</rss>"
  {
  }

  lemma ItemTagsSpelled()
    ensures StartTag(ItemTag, "") == "<item>" && EndTag(ItemTag) == "</item>"
  {
  }

  lemma RelatedTagsSpelled()
    ensures StartTag(RelatedWordsTag, "") == "<guff:relatedwords>"
    ensures EndTag(RelatedWordsTag) == "</guff:relatedwords>"
  {
  }

  // The string builder. Each helper appends the text of some nodes to `acc`;
  // the ghost `kids` records the nodes whose text follows `base` so far.

  /** `acc += '<tag>' + text + '</tag>'`. */
  method AppendLeaf(acc: string, ghost base: string, ghost kids: seq<Node>, tag: Tag, text: string)
    returns (acc': string, ghost kids': seq<Node>)
    requires acc == base + RenderAll(kids)
    ensures kids' == kids + [Leaf(tag, text)] && acc' == base + RenderAll(kids')
  {
    acc' := acc + ("<" + tag.name + ">" + text + "</" + tag.name + ">");
    kids' := kids + [Leaf(tag, text)];
    LeafText(tag, text);
    Extend(base, kids, Leaf(tag, text));
  }

  /** `acc += '<tag attrs />'`. */
  method AppendEmpty(acc: string, ghost base: string, ghost kids: seq<Node>, tag: Tag, attrs: string)
    returns (acc': string, ghost kids': seq<Node>)
    requires acc == base + RenderAll(kids)
    ensures kids' == kids + [EmptyElement(tag, attrs)] && acc' == base + RenderAll(kids')
  {
    acc' := acc + ("<" + tag.name + attrs + " />");
    kids' := kids + [EmptyElement(tag, attrs)];
    Extend(base, kids, EmptyElement(tag, attrs));
  }

  /** `if (field) acc += '<tag>' + htmlEntities(field) + '</tag>'` (gulpfile.babel.js:415-439). */
  method AppendOptional(acc: string, ghost base: string, ghost kids: seq<Node>, tag: Tag, f: Field, ext: Externals)
    returns (acc': string, ghost kids': seq<Node>)
    requires acc == base + RenderAll(kids)
    ensures kids' == kids + Optional(tag, f, ext) && acc' == base + RenderAll(kids')
  {
    if Truthy(f) {
      var escaped := ext.escape(f.s);
      acc', kids' := AppendLeaf(acc, base, kids, tag, escaped);
    } else {
      acc', kids' := acc, kids;
      assert kids + [] == kids;
    }
  }

  /** Text appended after `base + RenderAll(kids)` is the text of more nodes. */
  lemma Compose(base: string, kids: seq<Node>, acc: string, inner: seq<Node>, s: string)
    requires acc == base + RenderAll(kids)
    requires s == acc + RenderAll(inner)
    ensures s == base + RenderAll(kids + inner)
  {
    RenderAllAppend(kids, inner);
    Regroup3(base, RenderAll(kids), RenderAll(inner));
  }

  lemma Regroup3(a: string, b: string, c: string)
    ensures a + b + c == a + (b + c)
  {
  }

  /** The text of an element whose children's text follows its start tag. */
  lemma CloseElement(acc: string, open: string, name: Tag, inner: seq<Node>)
    requires open == acc + StartTag(name, "")
    ensures open + RenderAll(inner) + EndTag(name) == acc + Render(Element(name, "", inner))
  {
  }

  /** `acc += '<tag><guff:slug>…</guff:slug><guff:word>…</guff:word></tag>'` (gulpfile.babel.js:441-448, 452-455). */
  method AppendPointer(acc: string, ghost base: string, ghost kids: seq<Node>, tag: Tag, p: Ref)
    returns (acc': string, ghost kids': seq<Node>)
    requires acc == base + RenderAll(kids)
    ensures kids' == kids + [PointerNode(tag, p)] && acc' == base + RenderAll(kids')
  {
    var s := acc + ("<" + tag.name + ">");
    ghost var open := s;
    ghost var inner: seq<Node> := [];
    s, inner := AppendLeaf(s, open, inner, SlugTag, p.slug);
    s, inner := AppendLeaf(s, open, inner, WordTag, p.word);
    acc' := s + ("</" + tag.name + ">");
    CloseElement(acc, open, tag, inner);
    kids' := kids + [PointerNode(tag, p)];
    Extend(base, kids, PointerNode(tag, p));
  }

  /** One `<guff:relatedword>` per related word, in order (gulpfile.babel.js:451-456). */
  method AppendRelatedWords(acc: string, related: seq<Ref>) returns (acc': string)
    ensures acc' == acc + RenderAll(RelatedNodes(related))
  {
    ghost var inner: seq<Node> := [];
    acc' := acc;
    assert acc' == acc + RenderAll(inner);
    for k := 0 to |related|
      invariant acc' == acc + RenderAll(inner)
      invariant inner == RelatedNodes(related[..k])
    {
      acc', inner := AppendPointer(acc', acc, inner, RelatedWordTag, related[k]);
      RelatedNodesSnoc(related, k);
    }
    assert related[..|related|] == related;
  }

  /** `relatedwords`, when there are any, as a `<guff:relatedwords>` list (gulpfile.babel.js:449-458). */
  method AppendRelated(acc: string, ghost base: string, ghost kids: seq<Node>, related: seq<Ref>)
    returns (acc': string, ghost kids': seq<Node>)
    requires acc == base + RenderAll(kids)
    ensures kids' == kids + RelatedBlock(related) && acc' == base + RenderAll(kids')
  {
    if |related| > 0 {
      RelatedTagsSpelled();
      var s := acc + "<guff:relatedwords>";
      ghost var open := s;
      s := AppendRelatedWords(s, related);
      acc' := s + "</guff:relatedwords>";
      CloseElement(acc, open, RelatedWordsTag, RelatedNodes(related));
      kids' := kids + RelatedBlock(related);
      Extend(base, kids, Element(RelatedWordsTag, "", RelatedNodes(related)));
    } else {
      acc', kids' := acc, kids;
      assert kids + [] == kids;
    }
  }


  /** The leading elements of an item (gulpfile.babel.js:406-414). */
  method AppendItemHeader(acc: string, ghost base: string, ghost kids: seq<Node>, slug: string, currentWord: Record)
    returns (acc': string, ghost kids': seq<Node>)
    requires acc == base + RenderAll(kids)
    ensures kids' == kids + ItemHeader(slug, currentWord) && acc' == base + RenderAll(kids')
  {
    var s := acc;
    ghost var inner: seq<Node> := [];
    assert s == acc + RenderAll(inner);
    s, inner := AppendLeaf(s, acc, inner, TitleTag, currentWord.word);
    assert inner == [Leaf(TitleTag, currentWord.word)];
    s, inner := AppendLeaf(s, acc, inner, DescriptionTag, currentWord.tweettextrss);
    s, inner := AppendLeaf(s, acc, inner, LinkTag, RssLink + slug + "/");
    s, inner := AppendLeaf(s, acc, inner, GuidTag, RssLink + slug + "/");
    s, inner := AppendLeaf(s, acc, inner, PubDateTag, currentWord.pubdate + "/");
    s, inner := AppendLeaf(s, acc, inner, FormattedDateTag, currentWord.formatteddate);
    s, inner := AppendLeaf(s, acc, inner, SlugTag, currentWord.slug);
    s, inner := AppendLeaf(s, acc, inner, WordIdTag, Show(currentWord.wordid));
    s, inner := AppendLeaf(s, acc, inner, SubmissionDateTag, Show(currentWord.submissiondate));
    assert inner == ItemHeader(slug, currentWord);
    Compose(base, kids, acc, inner, s);
    acc' := s;
    kids' := kids + inner;
  }

  /** The free-text fields of an item (gulpfile.babel.js:415-439). */
  method AppendItemTexts(acc: string, ghost base: string, ghost kids: seq<Node>, currentWord: Record, ext: Externals)
    returns (acc': string, ghost kids': seq<Node>)
    requires acc == base + RenderAll(kids)
    ensures kids' == kids + ItemTexts(currentWord, ext) && acc' == base + RenderAll(kids')
  {
    var s := acc;
    ghost var inner: seq<Node> := [];
    assert s == acc + RenderAll(inner);
    s, inner := AppendOptional(s, acc, inner, DefinitionTag, currentWord.definition, ext);
    assert inner == Optional(DefinitionTag, currentWord.definition, ext);
    s, inner := AppendOptional(s, acc, inner, UsageExampleTag, currentWord.usageexample, ext);
    s, inner := AppendOptional(s, acc, inner, LucyCommentaryTag, currentWord.lucycommentary, ext);
    s, inner := AppendLeaf(s, acc, inner, CommentUrlTag, Show(currentWord.commenturl));
    s, inner := AppendOptional(s, acc, inner, PerpetratorTag, currentWord.perpetrator, ext);
    s, inner := AppendOptional(s, acc, inner, UsageSourceTag, currentWord.usagesource, ext);
    s, inner := AppendOptional(s, acc, inner, SourceUrlTag, currentWord.sourceurl, ext);
    assert inner == ItemTexts(currentWord, ext);
    Compose(base, kids, acc, inner, s);
    acc' := s;
    kids' := kids + inner;
  }

  /** The tweet and the links of an item (gulpfile.babel.js:440-458). */
  method AppendItemLinks(acc: string, ghost base: string, ghost kids: seq<Node>, currentWord: Record)
    returns (acc': string, ghost kids': seq<Node>)
    requires acc == base + RenderAll(kids)
    ensures kids' == kids + ItemLinks(currentWord) && acc' == base + RenderAll(kids')
  {
    var s := acc;
    ghost var inner: seq<Node> := [];
    assert s == acc + RenderAll(inner);
    s, inner := AppendLeaf(s, acc, inner, TweetTag, currentWord.tweettextrss);
    assert inner == [Leaf(TweetTag, currentWord.tweettextrss)];
    s, inner := AppendPointer(s, acc, inner, PreviousWordTag, currentWord.previousWord);
    s, inner := AppendPointer(s, acc, inner, NextWordTag, currentWord.nextWord);
    s, inner := AppendRelated(s, acc, inner, currentWord.relatedwords);
    assert inner == ItemLinks(currentWord);
    Compose(base, kids, acc, inner, s);
    acc' := s;
    kids' := kids + inner;
  }

  /** One `<item>` (gulpfile.babel.js:404-459). */
  method AppendItem(acc: string, ghost base: string, ghost kids: seq<Node>, slug: string, currentWord: Record,
                    ext: Externals)
    returns (acc': string, ghost kids': seq<Node>)
    requires acc == base + RenderAll(kids)
    ensures kids' == kids + [ItemTree(slug, currentWord, ext)] && acc' == base + RenderAll(kids')
  {
    ItemTagsSpelled();
    var s := acc + "<item>";
    ghost var open := s;
    ghost var inner: seq<Node> := [];
    assert s == open + RenderAll(inner);
    s, inner := AppendItemHeader(s, open, inner, slug, currentWord);
    assert inner == ItemHeader(slug, currentWord);
    s, inner := AppendItemTexts(s, open, inner, currentWord, ext);
    s, inner := AppendItemLinks(s, open, inner, currentWord);
    acc' := s + "</item>";
    CloseElement(acc, open, ItemTag, inner);
    kids' := kids + [ItemTree(slug, currentWord, ext)];
    Extend(base, kids, ItemTree(slug, currentWord, ext));
  }

  /** The prolog and the opening `<rss>` and `<channel>` tags (gulpfile.babel.js:396-398). */
  method OpenFeed() returns (s: string)
    ensures s == Prolog + StartTag(RssTag, RssAttrs) + StartTag(ChannelTag, "")
  {
    FeedTagsSpelled(RssAttrs);
    s := "<?xml version=\"1.0\"?>";
    s := s + ("<rss" + RssAttrs + ">");
    s := s + "<channel>";
  }

  /** The channel's fixed metadata (gulpfile.babel.js:399-402). */
  method AppendChannelHead(acc: string, ghost base: string) returns (acc': string)
    requires acc == base
    ensures acc' == base + RenderAll(ChannelHead())
  {
    ghost var kids: seq<Node> := [];
    assert acc == base + RenderAll(kids);
    var s := acc;
    s, kids := AppendLeaf(s, base, kids, TitleTag, RssTitle);
    assert kids == [Leaf(TitleTag, RssTitle)];
    s, kids := AppendLeaf(s, base, kids, LinkTag, RssLink);
    s, kids := AppendLeaf(s, base, kids, DescriptionTag, RssDescription);
    s, kids := AppendEmpty(s, base, kids, AtomLinkTag, AtomLinkAttrs);
    assert kids == ChannelHead();
    acc' := s;
  }

  /** The closing `</channel>` and `</rss>` tags (gulpfile.babel.js:461-462). */
  method CloseFeed(acc: string) returns (acc': string)
    ensures acc' == acc + EndTag(ChannelTag) + EndTag(RssTag)
  {
    FeedTagsSpelled("");
    acc' := acc + "</channel>";
    acc' := acc' + "</rss>";
  }

  /**
    The feed as the build writes it: the fixed channel header, one item per
    entry in descending date order, then the closing tags.
  */
  method CreateRssFeed(words: WordCollection, ext: Externals) returns (rssString: string)
    requires words.Valid()
    ensures rssString == Document(words, ext)
  {
    var dateIndex := FeedOrder(words, ext);
    rssString := OpenFeed();
    ghost var open := rssString;
    rssString := AppendChannelHead(rssString, open);
    ghost var head := rssString;
    ghost var kids: seq<Node> := [];
    for k := 0 to |dateIndex|
      invariant rssString == head + RenderAll(kids)
      invariant kids == Items(dateIndex[..k], words.entries, ext)
    {
      var slug := dateIndex[k];
      var currentWord := words.entries[slug];
      rssString, kids := AppendItem(rssString, head, kids, slug, currentWord, ext);
      ItemsSnoc(dateIndex, words.entries, ext, k);
    }
    assert dateIndex[..|dateIndex|] == dateIndex;
    Compose(open, ChannelHead(), head, kids, rssString);
    ghost var body := rssString;
    rssString := CloseFeed(rssString);
    DocumentText(words, ext);
    Regroup(Prolog, StartTag(RssTag, RssAttrs), StartTag(ChannelTag, ""), RenderAll(ChannelHead() + kids),
            EndTag(ChannelTag), EndTag(RssTag));
  }

  // What the feed contains, stated on the element tree.

  /** The names of a concatenation are the names of its parts. */
  lemma {:induction false} NamesAppend(a: seq<Node>, b: seq<Node>)
    ensures Names(a + b) == Names(a) + Names(b)
  {
    if a == [] {
      assert a + b == b;
    } else {
      assert (a + b)[1..] == a[1..] + b;
      NamesAppend(a[1..], b);
    }
  }

  lemma NamesSnoc(a: seq<Node>, n: Node)
    ensures Names(a + [n]) == Names(a) + [n.tag.kind]
  {
    NamesAppend(a, [n]);
    assert [n][1..] == [];
  }

  /** `tag` when the field is truthy, nothing otherwise. */
  function NameIf(kind: Kind, present: bool): seq<Kind> {
    if present then [kind] else []
  }

  lemma OptionalNames(tag: Tag, f: Field, ext: Externals)
    ensures Names(Optional(tag, f, ext)) == NameIf(tag.kind, Truthy(f))
  {
    if Truthy(f) {
      NamesSnoc([], Leaf(tag, ext.escape(f.s)));
      assert [] + [Leaf(tag, ext.escape(f.s))] == [Leaf(tag, ext.escape(f.s))];
    }
  }

  /** The element names of an item, in order: which elements it has depends only on which fields are truthy. */
  lemma ItemNames(slug: string, r: Record, ext: Externals)
    ensures Names(ItemChildren(slug, r, ext)) ==
      [Title, Description, Link, Guid, PubDate, FormattedDate, Slug, WordId,
       SubmissionDate]
      + (NameIf(Definition, Truthy(r.definition))
         + NameIf(UsageExample, Truthy(r.usageexample))
         + NameIf(LucyCommentary, Truthy(r.lucycommentary))
         + [CommentUrl]
         + NameIf(Perpetrator, Truthy(r.perpetrator))
         + NameIf(UsageSource, Truthy(r.usagesource))
         + NameIf(SourceUrl, Truthy(r.sourceurl)))
      + ([Tweet, PreviousWord, NextWord]
         + NameIf(RelatedWords, |r.relatedwords| > 0))
  {
    var h := ItemHeader(slug, r);
    var t := ItemTexts(r, ext);
    var l := ItemLinks(r);
    NamesAppend(h + t, l);
    NamesAppend(h, t);
    HeaderNames(slug, r);
    TextsNames(r, ext);
    LinksNames(r);
  }

  lemma HeaderNames(slug: string, r: Record)
    ensures Names(ItemHeader(slug, r)) ==
      [Title, Description, Link, Guid, PubDate, FormattedDate, Slug, WordId,
       SubmissionDate]
  {
    var n0 := [Leaf(TitleTag, r.word)];
    var n1 := n0 + [Leaf(DescriptionTag, r.tweettextrss)];
    var n2 := n1 + [Leaf(LinkTag, RssLink + slug + "/")];
    var n3 := n2 + [Leaf(GuidTag, RssLink + slug + "/")];
    var n4 := n3 + [Leaf(PubDateTag, r.pubdate + "/")];
    var n5 := n4 + [Leaf(FormattedDateTag, r.formatteddate)];
    var n6 := n5 + [Leaf(SlugTag, r.slug)];
    var n7 := n6 + [Leaf(WordIdTag, Show(r.wordid))];
    var n8 := n7 + [Leaf(SubmissionDateTag, Show(r.submissiondate))];
    NamesSnoc([], n0[0]);
    assert [] + [n0[0]] == n0;
    NamesSnoc(n0, n1[1]);
    NamesSnoc(n1, n2[2]);
    NamesSnoc(n2, n3[3]);
    NamesSnoc(n3, n4[4]);
    NamesSnoc(n4, n5[5]);
    NamesSnoc(n5, n6[6]);
    NamesSnoc(n6, n7[7]);
    NamesSnoc(n7, n8[8]);
  }

  lemma LinksNames(r: Record)
    ensures Names(ItemLinks(r)) ==
      [Tweet, PreviousWord, NextWord] + NameIf(RelatedWords, |r.relatedwords| > 0)
  {
    var n0 := [Leaf(TweetTag, r.tweettextrss)];
    var n1 := n0 + [PointerNode(PreviousWordTag, r.previousWord)];
    var n2 := n1 + [PointerNode(NextWordTag, r.nextWord)];
    NamesSnoc([], n0[0]);
    assert [] + [n0[0]] == n0;
    NamesSnoc(n0, n1[1]);
    NamesSnoc(n1, n2[2]);
    NamesAppend(n2, RelatedBlock(r.relatedwords));
    if |r.relatedwords| > 0 {
      NamesSnoc([], Element(RelatedWordsTag, "", RelatedNodes(r.relatedwords)));
      assert [] + [Element(RelatedWordsTag, "", RelatedNodes(r.relatedwords))] == RelatedBlock(r.relatedwords);
    }
  }

  lemma TextsNames(r: Record, ext: Externals)
    ensures Names(ItemTexts(r, ext)) ==
      NameIf(Definition, Truthy(r.definition))
      + NameIf(UsageExample, Truthy(r.usageexample))
      + NameIf(LucyCommentary, Truthy(r.lucycommentary))
      + [CommentUrl]
      + NameIf(Perpetrator, Truthy(r.perpetrator))
      + NameIf(UsageSource, Truthy(r.usagesource))
      + NameIf(SourceUrl, Truthy(r.sourceurl))
  {
    var d := [Leaf(CommentUrlTag, Show(r.commenturl))];
    NamesSnoc([], d[0]);
    assert [] + [d[0]] == d;
    OptionalNames(DefinitionTag, r.definition, ext);
    OptionalNames(UsageExampleTag, r.usageexample, ext);
    OptionalNames(LucyCommentaryTag, r.lucycommentary, ext);
    OptionalNames(PerpetratorTag, r.perpetrator, ext);
    OptionalNames(UsageSourceTag, r.usagesource, ext);
    OptionalNames(SourceUrlTag, r.sourceurl, ext);
    NamesOfSeven(Optional(DefinitionTag, r.definition, ext), Optional(UsageExampleTag, r.usageexample, ext),
                 Optional(LucyCommentaryTag, r.lucycommentary, ext), d,
                 Optional(PerpetratorTag, r.perpetrator, ext), Optional(UsageSourceTag, r.usagesource, ext),
                 Optional(SourceUrlTag, r.sourceurl, ext),
                 NameIf(Definition, Truthy(r.definition)), NameIf(UsageExample, Truthy(r.usageexample)),
                 NameIf(LucyCommentary, Truthy(r.lucycommentary)), [CommentUrl],
                 NameIf(Perpetrator, Truthy(r.perpetrator)), NameIf(UsageSource, Truthy(r.usagesource)),
                 NameIf(SourceUrl, Truthy(r.sourceurl)));
  }


  /** The names of seven consecutive groups of nodes, from the names of each group. */
  lemma NamesOfSeven(a: seq<Node>, b: seq<Node>, c: seq<Node>, d: seq<Node>, e: seq<Node>, f: seq<Node>, g: seq<Node>,
                     na: seq<Kind>, nb: seq<Kind>, nc: seq<Kind>, nd: seq<Kind>, ne: seq<Kind>, nf: seq<Kind>, ng: seq<Kind>)
    requires Names(a) == na && Names(b) == nb && Names(c) == nc && Names(d) == nd
    requires Names(e) == ne && Names(f) == nf && Names(g) == ng
    ensures Names(a + b + c + d + e + f + g) == na + nb + nc + nd + ne + nf + ng
  {
    NamesAppend(a, b);
    NamesAppend(a + b, c);
    NamesAppend(a + b + c, d);
    NamesAppend(a + b + c + d, e);
    NamesAppend(a + b + c + d + e, f);
    NamesAppend(a + b + c + d + e + f, g);
  }


  /** Membership in seven consecutive groups of names. */
  lemma InSeven(k: Kind, a: seq<Kind>, b: seq<Kind>, c: seq<Kind>, d: seq<Kind>, e: seq<Kind>, f: seq<Kind>, g: seq<Kind>)
    ensures k in a + b + c + d + e + f + g <==> k in a || k in b || k in c || k in d || k in e || k in f || k in g
  {
  }

  lemma TextsMembers(r: Record, ext: Externals)
    ensures var names := Names(ItemTexts(r, ext));
      && (Definition in names <==> Truthy(r.definition))
      && (UsageExample in names <==> Truthy(r.usageexample))
      && (LucyCommentary in names <==> Truthy(r.lucycommentary))
      && (Perpetrator in names <==> Truthy(r.perpetrator))
      && (UsageSource in names <==> Truthy(r.usagesource))
      && (SourceUrl in names <==> Truthy(r.sourceurl))
      && CommentUrl in names && RelatedWords !in names
  {
    TextsNames(r, ext);
    var a := NameIf(Definition, Truthy(r.definition));
    var b := NameIf(UsageExample, Truthy(r.usageexample));
    var c := NameIf(LucyCommentary, Truthy(r.lucycommentary));
    var e := NameIf(Perpetrator, Truthy(r.perpetrator));
    var f := NameIf(UsageSource, Truthy(r.usagesource));
    var g := NameIf(SourceUrl, Truthy(r.sourceurl));
    InSeven(Definition, a, b, c, [CommentUrl], e, f, g);
    InSeven(UsageExample, a, b, c, [CommentUrl], e, f, g);
    InSeven(LucyCommentary, a, b, c, [CommentUrl], e, f, g);
    InSeven(Perpetrator, a, b, c, [CommentUrl], e, f, g);
    InSeven(UsageSource, a, b, c, [CommentUrl], e, f, g);
    InSeven(SourceUrl, a, b, c, [CommentUrl], e, f, g);
    InSeven(CommentUrl, a, b, c, [CommentUrl], e, f, g);
    InSeven(RelatedWords, a, b, c, [CommentUrl], e, f, g);
  }

  /** The elements every item has. */
  const RequiredNames := [Title, Description, Link, Guid, PubDate, FormattedDate, Slug,
                          WordId, SubmissionDate, CommentUrl, Tweet, PreviousWord, NextWord]

  /** Every item has the elements the source writes unconditionally, whatever the fields hold. */
  lemma ItemRequiredElements(slug: string, r: Record, ext: Externals)
    ensures forall tag :: tag in RequiredNames ==> tag in Names(ItemChildren(slug, r, ext))
  {
    ItemNames(slug, r, ext);
  }

  /**
    The texts the item carries: the word and slugs unescaped, the publication
    date followed by a stray `/`, the comment address even when it is missing
    (as `undefined`), each truthy optional field escaped, the two neighbours,
    and one `<guff:relatedword>` per related word, in order.
  */
  lemma ItemContents(slug: string, r: Record, ext: Externals)
    ensures var kids := ItemChildren(slug, r, ext);
      && Leaf(TitleTag, r.word) in kids
      && Leaf(LinkTag, RssLink + slug + "/") in kids && Leaf(GuidTag, RssLink + slug + "/") in kids
      && Leaf(PubDateTag, r.pubdate + "/") in kids
      && Leaf(SlugTag, r.slug) in kids
      && Leaf(CommentUrlTag, Show(r.commenturl)) in kids
      && PointerNode(PreviousWordTag, r.previousWord) in kids
      && PointerNode(NextWordTag, r.nextWord) in kids
      && (Truthy(r.definition) ==> Leaf(DefinitionTag, ext.escape(r.definition.s)) in kids)
      && (Truthy(r.usageexample) ==> Leaf(UsageExampleTag, ext.escape(r.usageexample.s)) in kids)
      && (Truthy(r.lucycommentary) ==> Leaf(LucyCommentaryTag, ext.escape(r.lucycommentary.s)) in kids)
      && (Truthy(r.perpetrator) ==> Leaf(PerpetratorTag, ext.escape(r.perpetrator.s)) in kids)
      && (Truthy(r.usagesource) ==> Leaf(UsageSourceTag, ext.escape(r.usagesource.s)) in kids)
      && (Truthy(r.sourceurl) ==> Leaf(SourceUrlTag, ext.escape(r.sourceurl.s)) in kids)
      && (|r.relatedwords| > 0 ==> Element(RelatedWordsTag, "", RelatedNodes(r.relatedwords)) in kids)
  {
  }

  /**
    The items follow every key exactly once, newest submission first; the sort
    is stable, so entries with the same date keep their order in `words.keys`.
  */
  lemma FeedOrderNewestFirst(words: WordCollection, ext: Externals)
    requires words.Valid()
    ensures var order := FeedOrder(words, ext);
      && |order| == |words.keys| && Distinct(order)
      && (forall s :: s in order <==> s in words.keys)
      && (forall i, j :: 0 <= i < j < |order| ==>
            var a := ext.dateKey(words.entries[order[i]].submissiondate);
            var b := ext.dateKey(words.entries[order[j]].submissiondate);
            a > b || (a == b && Position(words.keys, order[i]) < Position(words.keys, order[j])))
  {
    var order := FeedOrder(words, ext);
    var dates := DateKeys(words.entries, ext);
    ByDateOfValid(words, ext);
    SortedDistinct(NewestFirst(dates, words.keys), order);
    forall i, j | 0 <= i < j < |order|
      ensures var a := ext.dateKey(words.entries[order[i]].submissiondate);
              var b := ext.dateKey(words.entries[order[j]].submissiondate);
              a > b || (a == b && Position(words.keys, order[i]) < Position(words.keys, order[j]))
    {
      assert Precedes(NewestFirst(dates, words.keys), order[i], order[j]);
      assert order[i] in words.keys && order[j] in words.keys;
      assert DateOf(dates, order[i]) == ext.dateKey(words.entries[order[i]].submissiondate);
      assert DateOf(dates, order[j]) == ext.dateKey(words.entries[order[j]].submissiondate);
    }
  }

  /** When every entry has the same date, the items come in the key order of `words.json`, whatever it is. */
  lemma FeedOrderSameDate(words: WordCollection, ext: Externals)
    requires words.Valid()
    requires forall s, t :: s in words.entries && t in words.entries ==>
      ext.dateKey(words.entries[s].submissiondate) == ext.dateKey(words.entries[t].submissiondate)
    ensures FeedOrder(words, ext) == words.keys
  {
    var dates := DateKeys(words.entries, ext);
    var order := NewestFirst(dates, words.keys);
    forall i, j | 0 <= i < j < |words.keys| ensures Precedes(order, words.keys[i], words.keys[j]) {
      PositionOfDistinct(words.keys, i);
      PositionOfDistinct(words.keys, j);
      assert DateOf(dates, words.keys[i]) == DateOf(dates, words.keys[j]);
    }
    SortOfSorted(order, words.keys);
  }

  /**
    For the `words.json` that download-data writes, whose keys are in string
    order, items with the same date appear in alphabetical order.
  */
  lemma FeedOrderAlphabeticalTies(words: WordCollection, ext: Externals)
    requires words.Valid() && SortedBy(Alphabetical, words.keys)
    ensures var order := FeedOrder(words, ext);
      forall i, j :: 0 <= i < j < |order| ==>
        ext.dateKey(words.entries[order[i]].submissiondate) == ext.dateKey(words.entries[order[j]].submissiondate)
        ==> Less(order[i], order[j])
  {
    var order := FeedOrder(words, ext);
    FeedOrderNewestFirst(words, ext);
    forall i, j | 0 <= i < j < |order|
      && ext.dateKey(words.entries[order[i]].submissiondate) == ext.dateKey(words.entries[order[j]].submissiondate)
      ensures Less(order[i], order[j])
    {
      PositionIsStringOrder(words.keys, order[i], order[j]);
    }
  }
}
