/** The `/myFiles` handler: the outcome of reading the storage directory
    becomes either the HTML listing page or the 500 error. Names are put into
    the markup exactly as read, with no escaping. */
module Listing {
  import opened Wrappers
  import opened JsString

  /** What `fs.readdir` hands to its callback: an error, or the entry names in
      the order the directory produced them. */
  datatype ReadDir = ReadFailed | Entries(files: seq<string>)

  datatype Response = Response(status: nat, body: string)

  const ErrorMessage: string := "Error reading directory"

  /** The page text before the `<ul>` that holds the items. */
  const PageHead: string :=
    "\n                <html>\n                    <head>\n"
    + "                        <title>Lista de Arquivos</title>\n"
    + "                        <link rel=\"stylesheet\" type=\"text/css\" href=\"/styles.css\">\n"
    + "                    </head>\n                    <body>\n"
    + "                        <h1>Lista de Arquivos</h1>\n"
    + "                        "

  /** The page text after the `</ul>`. */
  const PageFoot: string :=
    "\n                    </body>\n                </html>\n            "

  const PageOpen: string := PageHead + "<ul>"

  const PageClose: string := "</ul>" + PageFoot

  /** `req.protocol + '://' + req.get('host')` */
  function BasePath(protocol: string, host: string): string {
    protocol + "://" + host
  }

  /** The fixed text of one list item. The name goes in three times: after
      `head` (in the href), after `afterHref` (as the download attribute) and
      after `afterDownload` (as the link text); `close` ends the item. */
  datatype ItemTemplate = ItemTemplate(head: string, afterHref: string, afterDownload: string, close: string)

  /** The template the handler uses, for links under `basePath`. */
  function ItemTemplateFor(basePath: string): ItemTemplate {
    ItemTemplate("<li><a href=\"" + basePath + "/myFiles/", "\" download=\"", "\">", "</a></li>")
  }

  /** One item of the list with `file` filled in. */
  function ListItem(t: ItemTemplate, file: string): string {
    t.head + file + ItemTail(t, file)
  }

  /** The text of an item after the first copy of the name. */
  function ItemTail(t: ItemTemplate, file: string): string {
    t.afterHref + file + t.afterDownload + file + t.close
  }

  /** `files.map(ListItem).join('')` */
  function ItemList(t: ItemTemplate, files: seq<string>): string
    decreases |files|
  {
    if |files| == 0 then "" else ListItem(t, files[0]) + ItemList(t, files[1..])
  }

  /** The href value is closed by a '"', so a name without one ends there. */
  predicate QuoteClosesHref(t: ItemTemplate) {
    |t.afterHref| > 0 && t.afterHref[0] == '"' && |t.head| > 0
  }

  predicate NoQuotes(files: seq<string>) {
    forall i :: 0 <= i < |files| ==> '"' !in files[i]
  }

  /** Reads the name linked by the item at the front of `s`, if `s` starts
      with a well-formed item. */
  function ParseItem(t: ItemTemplate, s: string): (r: Option<string>)
    ensures r.Some? ==> StartsWith(s, ListItem(t, r.value))
  {
    if !StartsWith(s, t.head) then None
    else
      var rest := s[|t.head|..];
      var quote := FirstIndexOf(rest, '"');
      if quote.None? then None
      else
        var file := rest[..quote.value];
        if StartsWith(rest[quote.value..], ItemTail(t, file)) then
          StartsWithThree(s, t.head, file, ItemTail(t, file));
          Some(file)
        else None
  }

  /** Reads an item list back into the names it links; the partner of
      ItemList. */
  function ParseItems(t: ItemTemplate, s: string): Option<seq<string>>
    decreases |s|
  {
    if |s| == 0 then Some([])
    else
      match ParseItem(t, s)
      case None => None
      case Some(file) =>
        if |ListItem(t, file)| == 0 then None
        else
          match ParseItems(t, s[|ListItem(t, file)|..])
          case None => None
          case Some(more) => Some([file] + more)
  }

  /** Reads a whole listing page back into the names it links. */
  function ParsePage(t: ItemTemplate, body: string): Option<seq<string>> {
    if |body| < |PageOpen| + |PageClose| then None
    else if body[..|PageOpen|] != PageOpen then None
    else if body[|body| - |PageClose|..] != PageClose then None
    else ParseItems(t, body[|PageOpen|..|body| - |PageClose|])
  }

  /** ParseItem accepts `s` as an item for `f` when each of its tests passes. */
  lemma ParseItemWhen(t: ItemTemplate, s: string, f: string)
    requires StartsWith(s, t.head)
    requires FirstIndexOf(s[|t.head|..], '"') == Some(|f|)
    requires s[|t.head|..][..|f|] == f
    requires StartsWith(s[|t.head|..][|f|..], ItemTail(t, f))
    ensures ParseItem(t, s) == Some(f)
  {
  }

  /** A quote-free name's item, in front of any text, is read back whole. */
  lemma ParseItemOf(t: ItemTemplate, f: string, more: string)
    requires QuoteClosesHref(t)
    requires '"' !in f
    ensures ParseItem(t, ListItem(t, f) + more) == Some(f)
  {
    var tail := ItemTail(t, f);
    var rest := f + (tail + more);
    var s := t.head + rest;
    assert ListItem(t, f) + more == s;
    StartsWithConcat(t.head, rest);
    FirstIndexAfter(f, tail + more, '"');
    StartsWithConcat(f, tail + more);
    StartsWithConcat(tail, more);
    ParseItemWhen(t, s, f);
  }

  /** A quote-free name's item in front of more text adds that name in front
      of what the text reads back as. */
  lemma ParseItemsCons(t: ItemTemplate, f: string, more: string)
    requires QuoteClosesHref(t)
    requires '"' !in f
    ensures ParseItems(t, ListItem(t, f) + more) ==
      match ParseItems(t, more)
      case None => None
      case Some(fs) => Some([f] + fs)
  {
    var item := ListItem(t, f);
    ParseItemOf(t, f, more);
    assert (item + more)[|item|..] == more;
  }

  lemma {:induction false} ItemListRoundTrip(t: ItemTemplate, files: seq<string>)
    requires QuoteClosesHref(t)
    ensures NoQuotes(files) ==> ParseItems(t, ItemList(t, files)) == Some(files)
    decreases |files|
  {
    if |files| > 0 && NoQuotes(files) {
      var f, rest := files[0], files[1..];
      assert NoQuotes(rest) by {
        forall i | 0 <= i < |rest| ensures '"' !in rest[i] {
          assert rest[i] == files[i + 1];
        }
      }
      ItemListRoundTrip(t, rest);
      assert ItemList(t, files) == ListItem(t, f) + ItemList(t, rest);
      ParseItemsCons(t, f, ItemList(t, rest));
      assert [f] + rest == files;
    }
  }

  /** The response to `GET /myFiles`. */
  function Render(dir: ReadDir, protocol: string, host: string): (r: Response)
    ensures r.status == 200 || r.status == 500
    ensures r.status == 500 <==> dir.ReadFailed?
    ensures dir.ReadFailed? ==> r.body == ErrorMessage
    ensures dir.Entries? && NoQuotes(dir.files) ==>
      ParsePage(ItemTemplateFor(BasePath(protocol, host)), r.body) == Some(dir.files)
  {
    match dir
    case ReadFailed => Response(500, ErrorMessage)
    case Entries(files) =>
      var t := ItemTemplateFor(BasePath(protocol, host));
      var items := ItemList(t, files);
      var body := PageOpen + items + PageClose;
      assert body[..|PageOpen|] == PageOpen;
      assert body[|body| - |PageClose|..] == PageClose;
      assert body[|PageOpen|..|body| - |PageClose|] == items;
      ItemListRoundTrip(t, files);
      Response(200, body)
  }

  lemma {:induction false} ItemListAppend(t: ItemTemplate, a: seq<string>, b: seq<string>)
    ensures ItemList(t, a + b) == ItemList(t, a) + ItemList(t, b)
    decreases |a|
  {
    if |a| > 0 {
      assert (a + b)[1..] == a[1..] + b;
      ItemListAppend(t, a[1..], b);
    } else {
      assert a + b == b;
    }
  }

  /** Item i of the list is the link for entry i, preceded by the links of the
      entries before it and followed by those after it: one item per entry,
      in readdir order, for every name whatever characters it holds. */
  lemma ItemAt(t: ItemTemplate, files: seq<string>, i: nat)
    requires i < |files|
    ensures ItemList(t, files) ==
      ItemList(t, files[..i]) + ListItem(t, files[i]) + ItemList(t, files[i + 1..])
  {
    assert files == files[..i] + [files[i]] + files[i + 1..];
    ItemListAppend(t, files[..i] + [files[i]], files[i + 1..]);
    ItemListAppend(t, files[..i], [files[i]]);
    assert ItemList(t, [files[i]]) == ListItem(t, files[i]);
  }

  /** The link for an entry points at `basePath/myFiles/name` and carries the
      name as its download attribute and as its text. */
  lemma ListItemFields(basePath: string, file: string)
    ensures ListItem(ItemTemplateFor(basePath), file) ==
      "<li><a href=\"" + basePath + "/myFiles/" + file + "\" download=\"" + file + "\">" + file + "</a></li>"
  {
  }

  /** A successful read gives a 200 page whose list holds exactly the items. */
  lemma ListingPage(files: seq<string>, protocol: string, host: string)
    ensures Render(Entries(files), protocol, host) ==
      Response(200, PageOpen + ItemList(ItemTemplateFor(BasePath(protocol, host)), files) + PageClose)
  {
  }

  /** An empty directory gives an empty `<ul></ul>`. */
  lemma EmptyListing(protocol: string, host: string)
    ensures Render(Entries([]), protocol, host).body == PageHead + "<ul></ul>" + PageFoot
  {
  }
}
