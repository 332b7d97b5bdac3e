/** The per-browser session dictionary that the request handlers read and
    write. Only the three keys the core touches are kept, each as a field. */
module SessionStore {
  import opened Text

  /** A rate-limit counter key `f"{identifier}:{bucket}"`. The string form is
      injective (the bucket is the text after the last `:`), so the pair
      stands for it. */
  datatype BucketKey = BucketKey(identifier: string, bucket: int)

  class Session {
    /** `session['rate_limits']`; an absent entry and an empty dictionary
        behave the same, so both are the empty map. */
    var rateLimits: map<BucketKey, nat>
    /** `session['csrf_token']`, `None` while the key is absent. */
    var csrfToken: Option<string>
    /** Whether the key `admin_logged_in` is present. */
    var adminLoggedIn: bool

    /** A fresh browser session holds none of the keys. */
    constructor ()
      ensures rateLimits == map[] && csrfToken == None && !adminLoggedIn
    {
      rateLimits := map[];
      csrfToken := None;
      adminLoggedIn := false;
    }
  }
}
