# fileSharingJS upload naming and directory listing, in Dafny

This project models the two parts of the fileSharingJS server (`index.js`) that make decisions:

1. **Upload filename collision resolution.** This is the multer `filename` callback. The storage directory `uploads/` is a finite `set<string>` of the names it holds. The two existence probes, `fs.access` and `fs.existsSync`, both become membership in that set.
   - A free name is kept as it is.
   - A taken name is cut the way `name.split('.')`, `pop()` and `join('.')` cut it.
   - The handler then probes `base + "-" + k + "." + ext` for k = 1, 2, … and uses the first candidate that is free.
2. **The `/myFiles` listing handler.** The outcome of `fs.readdir` (an error, or the entry names in order) and the request's protocol and host become either:
   - a 200 page with one `<li><a href=… download=…>…</a></li>` item per entry, or
   - a 500 response with body `Error reading directory`.

Files:
- `wrappers.dfy`: the `Option` datatype.
- `decimal.dfy`: the decimal text of the index, which is a JavaScript number turned into a string, and its parser.
- `jsstring.dfy`:
  - `String.prototype.split` and `Array.prototype.join` for a one-character separator;
  - a last-index search, used to describe where the split falls;
  - a first-index search and a prefix test, helpers for the listing read-back parser.
- `upload.dfy`: name splitting, candidates, a declarative definition of the least free index, the pure resolver and the loop that the handler runs.
- `upload_examples.dfy`: the edge-case names and repeated uploads of one name.
- `listing.dfy`:
  - the response of the listing handler;
  - the item markup as a template of four fixed pieces around the three copies of the name;
  - a parser that reads the item list back.

A name with no `.` becomes the extension, and the base is empty: `split` yields `["README"]` and `pop()` takes it. So `README` becomes `-1.README`. One might expect the whole name to be the base instead; the model does what index.js does.

## Model

| member | source | states |
|---|---|---|
| Decimal.NatToString | index.js:40 | the index is rendered as a non-empty string of decimal digits with no leading zero |
| Decimal.ParseNatToString | index.js:40 | reading the rendered index back as a decimal number gives the index again |
| Decimal.NatToStringInjective | index.js:40 | two different indices never render to the same text |
| JsString.Split | index.js:37 | `split('.')` gives at least one part, no part contains the separator, and joining the parts with it gives back the original string |
| JsString.SplitJoin | index.js:37-39 | splitting a join of separator-free parts gives back exactly those parts |
| JsString.JoinSnoc | index.js:38-39 | joining the parts left after `pop()` and adding the separator and the popped part rebuilds the whole join |
| JsString.LastIndexOf | index.js:37-38 | the position found holds the character and no later position does; none is found exactly when the character is absent |
| Upload.SplitName | index.js:37-39 | the extension never contains `.`; with a `.` in the name, base + "." + ext is the name; with none, the base is empty and the extension is the whole name |
| Upload.SplitNameIsLastDot | index.js:37-39 | the split/pop/join cut equals cutting at the last `.` (text before it and after it), or (empty, whole name) when there is no `.` |
| Upload.SplitNameAt | index.js:37-39 | if a name is `b + "." + e` with no `.` in `e`, the split yields exactly base `b` and extension `e` |
| Upload.CandidateInjective | index.js:40 | distinct indices give distinct candidate names |
| Upload.TakenRunBound | index.js:36-45 | if candidates 1..k are all taken, then k is at most the number of names in the directory |
| Upload.LeastFreeIndexUnique | index.js:36-44 | there is at most one first free index |
| Upload.FirstFreeFrom | index.js:36-45 | searching from any k with all smaller candidates taken ends at the least free index, between k and the directory size plus one |
| Upload.LeastFreeIndex | index.js:34-45 | the index found is at least 1 and its candidate is free, every smaller index's candidate is taken, and it is at most the directory size plus one |
| Upload.ResolveFilename | index.js:27-50 | a free name is kept unchanged; a taken name resolves to a name not in the directory, namely the candidate at the least free index |
| Upload.ResolveFilenameLoop | index.js:31-48 | the probing loop returns the same name as the resolver, never a taken one, with suffix index 0 for a free name and otherwise the least free index, bounded by the directory size plus one |
| Upload.CollisionShape | index.js:37-40 | a taken name with a `.` gets `-k` inserted before its last `.`, and a name without one gets `-k.` put in front, for some k at least 1 |
| Upload.DottedCandidate | index.js:37-40 | for a name with a `.`, candidate k is the name with `-k` put in front of its last `.`, keeping everything before and after it |
| Upload.DirectoryAfterUpload | index.js:46-48 | storing the upload under the resolved name keeps every existing entry and adds exactly one new name, so nothing is overwritten |
| UploadExamples.ResolvesToIndex | index.js:34-46 | a taken name whose least free index is k resolves to candidate k |
| UploadExamples.NoDotCollision | index.js:37-40 | a taken name with no `.` becomes `-1.` followed by the name when its first candidate is free |
| UploadExamples.DotCollision | index.js:37-40 | a taken `b.e` with no `.` in `e` becomes `b-1.e` when its first candidate is free |
| UploadExamples.NoDotName | index.js:37-40 | `README` becomes `-1.README` |
| UploadExamples.LeadingDotName | index.js:37-40 | `.bashrc` becomes `-1.bashrc` |
| UploadExamples.TrailingDotName | index.js:37-40 | `a.` becomes `a-1.` |
| UploadExamples.TwoDotName | index.js:37-40 | `a.tar.gz` becomes `a.tar-1.gz` |
| UploadExamples.ThreeUploads | index.js:27-50 | uploading one name three times stores the name itself, then suffix 1, then suffix 2, and the directory gains exactly those three names |
| Listing.ListItemFields | index.js:70 | the item for a name links to `basePath/myFiles/` followed by the name, and carries the name as its `download` attribute and as its text |
| Listing.ParseItem | index.js:70 | when an item is read from the front of a text, the text starts with exactly the item rendered for that name |
| Listing.ParseItemOf | index.js:70 | the item for a name without `"`, in front of any text, is read back as that name |
| Listing.ParseItemsCons | index.js:70 | an item for a name without `"`, in front of an item list, adds that name at the front of what the list reads back as |
| Listing.ItemListRoundTrip | index.js:70 | for names without `"`, reading the item list back gives the entries themselves, in readdir order |
| Listing.ItemListAppend | index.js:70 | the item list of two entry sequences, one after the other, is their item lists one after the other |
| Listing.ItemAt | index.js:70 | for every entry i and any characters in the names, the list is the items before i, then the link for entry i, then the items after it |
| Listing.Render | index.js:63-86 | status is 500 exactly when reading the directory failed, and then the body is `Error reading directory`; otherwise the status is 200, and for names without `"` the page reads back as the directory entries |
| Listing.ListingPage | index.js:69-83 | a successful read gives status 200 and the fixed page with the item list between `<ul>` and `</ul>` |
| Listing.EmptyListing | index.js:79 | an empty directory gives the page with an empty `<ul></ul>` |

## Left out

- Express routing, the `express.static` mounts and `res.sendFile` for `/` (index.js:57-60, 89-91). These are pass-throughs to library code that is not part of this model.
- Multer's multipart parsing, the `destination` callback and the disk write itself (index.js:23-25, 54, 94-97). The model decides the name. `Upload.DirectoryAfterUpload` only states what the directory holds once the write has happened.
- The check-then-write race between concurrent uploads of one name. index.js does not guard against it. Every property here is about one upload against one snapshot of the directory.
- `getLocalIpAddress` and `app.listen` (index.js:10-20, 100-102). They query the operating system and start the process.
- Console logging (index.js:66, 95, 101).
- How `req.protocol` and `req.get('host')` are obtained. They are plain string parameters.
- Response headers. Express's content type for `res.send` is not modelled, only the status and the body.
- Why `fs.access` fails. It fails for reasons other than a missing file, such as permissions. Each such failure, and each `fs.existsSync` result, is modelled as set membership.
- The meaning of `uploads/` + name as a path. A name with `/` or `..` in it is treated as an opaque key.
- JavaScript number precision above 2^53 for the index. The index never exceeds the directory size plus one.
- HTML escaping. index.js does none, and names go into the markup as they are.
- Listing.ItemListRoundTrip: the read-back is stated only for names without `"`. A `"` in a name ends the `href` attribute early, so such a page cannot be read back unambiguously. `Listing.ItemAt` covers every name without that restriction.
- Listing.Render: its read-back clause carries the same no-`"` restriction, for the same reason.
