/** The request-body preparation of `src/app/api/admin/projects/route.ts`:
    `processGallery`, and the `gallery` and `featuredImage` fields that
    POST and PUT rewrite before the database call. The body is the object
    `request.json()` returned, as a map from field names to values. */
module ProjectsRoute {
  import opened Wrappers
  import Json
  import JsStrings

  // ------------------------------------------------------------- gallery

  /** `gallery.split(',').map(url => url.trim()).filter(url => url)`. */
  function GalleryUrls(s: string): seq<string> {
    JsStrings.Pieces(s, ',')
  }

  /** The parsed entry for a URL at (zero-based) position `i`. */
  function GalleryItem(url: string, i: nat): Json.Value {
    Json.Obj(map["url" := Json.Str(url), "alt" := Json.Str("Gallery image " + JsStrings.NatToString(i + 1)),
                 "order" := Json.Num(i)])
  }

  /** The entries of the URLs, numbered from `from`. */
  function GalleryItems(urls: seq<string>, from: nat): (items: seq<Json.Value>)
    ensures |items| == |urls|
    ensures forall k :: 0 <= k < |urls| ==> items[k] == GalleryItem(urls[k], from + k)
  {
    if urls == [] then [] else [GalleryItem(urls[0], from)] + GalleryItems(urls[1..], from + 1)
  }

  /** `processGallery`: `null` for a falsy value, an array as it is, a
      string as the entries of its non-empty trimmed comma-separated
      pieces, and `null` for anything else. */
  function ProcessGallery(gallery: Json.Value): (r: Json.Value)
    ensures !Json.Truthy(gallery) ==> r == Json.Null
    ensures gallery.Arr? ==> r == gallery
    ensures Json.Truthy(gallery) && gallery.Str? ==> r == Json.Arr(GalleryItems(GalleryUrls(gallery.s), 0))
    ensures !gallery.Arr? && !gallery.Str? ==> r == Json.Null
  {
    if !Json.Truthy(gallery) then Json.Null
    else if gallery.Arr? then gallery
    else if gallery.Str? then Json.Arr(GalleryItems(GalleryUrls(gallery.s), 0))
    else Json.Null
  }

  /** The orders of parsed entries are 0, 1, ..., n - 1 and the alt texts
      count from 1, after empty pieces are dropped. */
  lemma {:induction false} GalleryOrders(s: string)
    ensures var items := GalleryItems(GalleryUrls(s), 0);
      forall k :: 0 <= k < |items| ==>
        items[k].Obj? && items[k].fields["order"] == Json.Num(k)
        && items[k].fields["alt"] == Json.Str("Gallery image " + JsStrings.NatToString(k + 1))
  {
  }

  // --------------------------------------------------- POST and PUT bodies

  /** The body after `if (body.gallery) body.gallery = processGallery(body.gallery)`. */
  function WithGallery(data: map<string, Json.Value>): map<string, Json.Value> {
    var g := Json.Get(data, "gallery");
    if Json.Truthy(g) then data["gallery" := ProcessGallery(g)] else data
  }

  /** The test `gallery && Array.isArray(gallery) && gallery.length > 0 && !featuredImage`. */
  predicate NeedsFeatured(data: map<string, Json.Value>) {
    var g := Json.Get(data, "gallery");
    Json.Truthy(g) && g.Arr? && |g.elems| > 0 && !Json.Truthy(Json.Get(data, "featuredImage"))
  }

  /** The fields sent to the database, or `None` when reading
      `gallery[0].url` throws (the first entry is `null` or `undefined`),
      which the handler answers with status 500. */
  function Prepared(body: map<string, Json.Value>): (r: Option<map<string, Json.Value>>)
    ensures var d := WithGallery(body);
      (r.None? <==> NeedsFeatured(d) && Json.Prop(d["gallery"].elems[0], "url").None?)
      && (r.Some? && NeedsFeatured(d) ==> r.value == d["featuredImage" := Json.Prop(d["gallery"].elems[0], "url").value])
      && (r.Some? && !NeedsFeatured(d) ==> r.value == d)
  {
    var d := WithGallery(body);
    if NeedsFeatured(d) then
      var u := Json.Prop(d["gallery"].elems[0], "url");
      if u.Some? then Some(d["featuredImage" := u.value]) else None
    else Some(d)
  }

  /** Only `gallery` and `featuredImage` can change; an existing truthy
      `featuredImage` is kept, and a falsy one becomes the first gallery
      entry's `url` when the gallery is a non-empty array. */
  lemma {:induction false} PreparedFields(body: map<string, Json.Value>)
    requires Prepared(body).Some?
    ensures var r := Prepared(body).value;
      (forall k :: k in body && k != "gallery" && k != "featuredImage" ==> k in r && r[k] == body[k])
      && (forall k :: k in r ==> k in body || k == "gallery" || k == "featuredImage")
      && (Json.Truthy(Json.Get(body, "featuredImage")) ==> Json.Get(r, "featuredImage") == body["featuredImage"])
  {
  }

  /** POST: the body is rewritten field by field, in place. */
  method PreparePost(body: map<string, Json.Value>) returns (r: Option<map<string, Json.Value>>)
    ensures r == Prepared(body)
  {
    var b := body;
    if Json.Truthy(Json.Get(b, "gallery")) {
      b := b["gallery" := ProcessGallery(b["gallery"])];
    }
    var g := Json.Get(b, "gallery");
    if Json.Truthy(g) && g.Arr? && |g.elems| > 0 && !Json.Truthy(Json.Get(b, "featuredImage")) {
      var url := Json.Prop(g.elems[0], "url");
      if url.None? {
        return None;
      }
      b := b["featuredImage" := url.value];
    }
    return Some(b);
  }

  /** PUT: `const { id, ...data } = body`, then the same rewriting of
      `data`; the `id` selects the row and is not among the fields set. */
  method PreparePut(body: map<string, Json.Value>) returns (id: Json.Value, r: Option<map<string, Json.Value>>)
    ensures id == Json.Get(body, "id")
    ensures r == Prepared(body - {"id"})
    ensures r.Some? ==> "id" !in r.value
  {
    id := Json.Get(body, "id");
    var data := body - {"id"};
    r := PreparePost(data);
    if r.Some? {
      PreparedFields(data);
    }
  }
}
