/** The slice of WordPress and WooCommerce state the plugin reads, as plain data.
    Courses, products and product variations are all posts and share one id space;
    a post meta value is read the way `get_post_meta($id, $key, true)` reads it. */
module Platform {
  import opened Php

  datatype Catalog = Catalog(
    /** meta 'flms_woocommerce_product_id': on a course, its product; on a product
        (in some setups), its course */
    linkedIdMeta: map<nat, string>,
    /** meta 'flms_woocommerce_variable_course_ids': "course:version" entries */
    variableCourseIds: map<nat, seq<string>>,
    /** meta 'flms_woocommerce_simple_course_ids': "course:version" entries */
    simpleCourseIds: map<nat, seq<string>>,
    /** published posts of each type, in the order `get_posts` lists them */
    productPosts: seq<nat>,
    variationPosts: seq<nat>,
    coursePosts: seq<nat>,
    /** the products `wc_get_product` finds, with `get_price()` in cents */
    productPrice: map<nat, nat>
  )

  /** A single string meta value; "" when the post has none. */
  function PostMeta(meta: map<nat, string>, id: nat): string {
    if id in meta then meta[id] else ""
  }

  /** An array meta value; the empty list when the post has none. */
  function PostMetaList(meta: map<nat, seq<string>>, id: nat): seq<string> {
    if id in meta then meta[id] else []
  }

  /** The first post, in query order, whose string meta equals `value`
      (`get_posts` with a '=' meta query and `posts_per_page` 1). */
  function FirstLinkedTo(posts: seq<nat>, meta: map<nat, string>, value: string): (r: Option<nat>)
    ensures r.Some? ==> exists k :: 0 <= k < |posts| && posts[k] == r.value && PostMeta(meta, posts[k]) == value &&
                          forall j :: 0 <= j < k ==> PostMeta(meta, posts[j]) != value
    ensures r.None? ==> forall j :: 0 <= j < |posts| ==> PostMeta(meta, posts[j]) != value
  {
    if posts == [] then None
    else if PostMeta(meta, posts[0]) == value then Some(posts[0])
    else
      var r := FirstLinkedTo(posts[1..], meta, value);
      assert r.Some? ==> exists k :: 1 <= k < |posts| && posts[k] == r.value && PostMeta(meta, posts[k]) == value &&
                          forall j :: 0 <= j < k ==> PostMeta(meta, posts[j]) != value by {
        if r.Some? {
          var k :| 0 <= k < |posts[1..]| && posts[1..][k] == r.value && PostMeta(meta, posts[1..][k]) == value &&
                   forall j :: 0 <= j < k ==> PostMeta(meta, posts[1..][j]) != value;
          assert posts[k + 1] == r.value;
          assert forall j :: 0 <= j < k + 1 ==> PostMeta(meta, posts[j]) != value by {
            forall j | 0 <= j < k + 1 ensures PostMeta(meta, posts[j]) != value {
              if j > 0 { assert posts[j] == posts[1..][j - 1]; }
            }
          }
        }
      }
      r
  }

  /** PHP `serialize()` of a list of strings: the text WordPress stores for an
      array meta value and that a LIKE meta query scans. */
  function Serialize(entries: seq<string>): string {
    "a:" + NatToString(|entries|) + ":{" + SerializeFrom(entries, 0) + "}"
  }

  function SerializeFrom(entries: seq<string>, index: nat): string {
    if entries == [] then ""
    else "i:" + NatToString(index) + ";s:" + NatToString(|entries[0]|) + ":\"" + entries[0] + "\";"
         + SerializeFrom(entries[1..], index + 1)
  }

  /** SQL `LIKE '%needle%'`. */
  predicate Contains(hay: string, needle: string) {
    needle <= hay || (hay != [] && Contains(hay[1..], needle))
  }

  /** The first post, in query order, whose array meta is set and whose serialized
      form contains `needle` (`get_posts` with a LIKE meta query). */
  function FirstListing(posts: seq<nat>, meta: map<nat, seq<string>>, needle: string): (r: Option<nat>)
    ensures r.Some? ==> exists k :: 0 <= k < |posts| && posts[k] == r.value && Listed(meta, posts[k], needle) &&
                          forall j :: 0 <= j < k ==> !Listed(meta, posts[j], needle)
    ensures r.None? ==> forall j :: 0 <= j < |posts| ==> !Listed(meta, posts[j], needle)
  {
    if posts == [] then None
    else if Listed(meta, posts[0], needle) then Some(posts[0])
    else
      var r := FirstListing(posts[1..], meta, needle);
      assert forall j :: 1 <= j < |posts| ==> posts[j] == posts[1..][j - 1];
      assert r.Some? ==> exists k :: 1 <= k < |posts| && posts[k] == r.value && Listed(meta, posts[k], needle) &&
                          forall j :: 0 <= j < k ==> !Listed(meta, posts[j], needle) by {
        if r.Some? {
          var k :| 0 <= k < |posts[1..]| && posts[1..][k] == r.value && Listed(meta, posts[1..][k], needle) &&
                   forall j :: 0 <= j < k ==> !Listed(meta, posts[1..][j], needle);
          assert posts[k + 1] == r.value;
        }
      }
      r
  }

  /** The post's array meta is set and its serialized form contains `needle`. */
  predicate Listed(meta: map<nat, seq<string>>, post: nat, needle: string) {
    post in meta && Contains(Serialize(meta[post]), needle)
  }
}
