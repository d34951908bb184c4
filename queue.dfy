/** The shared post queue, content_queue.json: a list of JSON objects, one
    per post. The keys the generator, the reviewer and the poster read or
    write are fields here; a key that is absent from the object is `None`.
    Every other key (category, type, generated_at, hashtags, ...) is kept,
    untouched, in `extra`. */
module Queue {
  import opened Python

  datatype Post = Post(
    content: Option<string>,
    approved: Option<bool>,
    approvedAt: Option<string>,
    edited: Option<bool>,
    editedAt: Option<string>,
    posted: Option<bool>,
    postedAt: Option<string>,
    extra: map<string, string>)
}
