/** `CloudStorage`: which storage clients exist after configuration, and
    which backend an upload ends in — Cloudinary first, then S3 (or an
    S3-compatible endpoint), then the local `uploads` directory. The SDK
    calls are replaced by their outcomes, given as parameters. */
module Storage {
  import opened Text

  /** A configuration entry: absent, present with the value `None`, or a
      string. `config.get(k)` cannot tell the first two apart;
      `config.get(k, default)` can. */
  datatype Setting = Unset | Null | Text(s: string)

  /** `config.get(k)`. */
  function Get(v: Setting): Option<string>
  {
    if v.Text? then Some(v.s) else None
  }

  /** `config.get(k, default)`: the default stands in only for an absent key. */
  function GetOr(v: Setting, default: string): Option<string>
  {
    match v
    case Unset => Some(default)
    case Null => None
    case Text(s) => Some(s)
  }

  /** Python truthiness of an optional string. */
  predicate Truthy(v: Option<string>)
  {
    v.Some? && v.value != ""
  }

  /** How an optional string prints inside an f-string. */
  function Show(v: Option<string>): string
  {
    if v.Some? then v.value else "None"
  }

  /** The entries of `app.config` that storage reads. */
  datatype AppConfig = AppConfig(
    accessKeyId: Setting,
    secretAccessKey: Setting,
    bucketName: Setting,
    region: Setting,
    endpointUrl: Setting,
    cloudinaryFolder: Setting)

  const DefaultRegion := "us-east-1"

  /** What `boto3.client('s3', ...)` was built with. */
  datatype S3Client = S3Client(accessKeyId: string, secretAccessKey: string,
                               region: Option<string>, endpointUrl: Option<string>)

  /** Whether the `cloudinary` package imported, and if so the cloud name its
      global configuration reports. */
  datatype CloudinarySdk = NotInstalled | Installed(cloudName: Option<string>)

  /** The outcome of `cloudinary.uploader.upload`: the response's
      `secure_url` and `url` entries, or an exception. */
  datatype CloudinaryReply = Reply(secureUrl: Option<string>, url: Option<string>) | Raised

  /** The outcome of `upload_fileobj`. */
  datatype S3Reply = S3Stored | NoCredentials | ClientFailure

  /** The local fallback's URL. Saving the file is left out. */
  function UploadLocal(objectName: string): (url: string)
    ensures StartsWith(url, "/uploads/") && url[|"/uploads/"|..] == objectName
  {
    "/uploads/" + objectName
  }

  /** `_upload_cloudinary`: `secure_url` when truthy, else `url` (whatever
      it is); nothing without the SDK or when the upload raises. */
  function UploadCloudinary(sdk: CloudinarySdk, reply: CloudinaryReply): (url: Option<string>)
    ensures sdk.NotInstalled? || reply.Raised? ==> url.None?
    ensures Truthy(url) ==> reply.Reply? && (url == reply.secureUrl || url == reply.url)
    ensures reply.Reply? && Truthy(reply.secureUrl) && sdk.Installed? ==> url == reply.secureUrl
    ensures reply.Reply? && !Truthy(reply.secureUrl) && sdk.Installed? ==> url == reply.url
  {
    if sdk.NotInstalled? then None
    else match reply
      case Raised => None
      case Reply(secureUrl, url) => if Truthy(secureUrl) then secureUrl else url
  }

  /** The AWS virtual-host URL of an object. */
  function HostedUrl(bucket: string, region: string, objectName: string): string
  {
    "https://" + bucket + ".s3." + region + ".amazonaws.com/" + objectName
  }

  /** The URL a successful S3 upload reports: below the endpoint when one is
      configured, else the AWS virtual-host form. */
  function S3Url(app: AppConfig, bucketName: Option<string>, objectName: string): (url: string)
    ensures |url| > |objectName| && url[|url| - |objectName| - 1..] == "/" + objectName
  {
    if Truthy(Get(app.endpointUrl)) then
      Show(Get(app.endpointUrl)) + "/" + Show(bucketName) + "/" + objectName
    else
      HostedUrl(Show(bucketName), Show(GetOr(app.region, DefaultRegion)), objectName)
  }

  /** Whether Cloudinary is tried at all. */
  predicate CloudinaryEnabled(sdk: CloudinarySdk)
  {
    sdk.Installed? && Truthy(sdk.cloudName)
  }

  class CloudStorage {
    /** The configuration of the application `init_app` was given. */
    var app: Option<AppConfig>
    var bucketName: Option<string>
    var s3Client: Option<S3Client>

    /** `CloudStorage()`: no application, no bucket, no client. */
    constructor ()
      ensures app == None && bucketName == None && s3Client == None
    {
      app := None;
      bucketName := None;
      s3Client := None;
    }

    /** `init_app`: remembers the configuration and the bucket name, and
        builds an S3 client only when both the key id and the secret are
        non-empty; otherwise the client is left as it was. */
    method InitApp(config: AppConfig)
      modifies this
      ensures app == Some(config)
      ensures bucketName == Get(config.bucketName)
      ensures Truthy(Get(config.accessKeyId)) && Truthy(Get(config.secretAccessKey))
              ==> s3Client == Some(S3Client(Get(config.accessKeyId).value,
                                            Get(config.secretAccessKey).value,
                                            GetOr(config.region, DefaultRegion),
                                            Get(config.endpointUrl)))
      ensures !(Truthy(Get(config.accessKeyId)) && Truthy(Get(config.secretAccessKey)))
              ==> s3Client == old(s3Client)
    {
      app := Some(config);
      bucketName := Get(config.bucketName);
      var key, secret := Get(config.accessKeyId), Get(config.secretAccessKey);
      if Truthy(key) && Truthy(secret) {
        s3Client := Some(S3Client(key.value, secret.value,
                                  GetOr(config.region, DefaultRegion),
                                  Get(config.endpointUrl)));
      }
    }

    /** `upload_file(file, object_name)`: the URL of the stored file, or
        `None` when S3 reports a client error. */
    function UploadFile(sdk: CloudinarySdk, cloudReply: CloudinaryReply, s3Reply: S3Reply,
                        objectName: string): (url: Option<string>)
      reads this
      requires app.Some?
      ensures s3Client.None? ==> url.Some?
      ensures url.None? ==> s3Client.Some? && s3Reply == ClientFailure
    {
      var cloudUrl := if CloudinaryEnabled(sdk) then UploadCloudinary(sdk, cloudReply) else None;
      if Truthy(cloudUrl) then cloudUrl
      else if s3Client.None? then Some(UploadLocal(objectName))
      else match s3Reply
        case S3Stored => Some(S3Url(app.value, bucketName, objectName))
        case NoCredentials => Some(UploadLocal(objectName))
        case ClientFailure => None
    }
  }

  /** A truthy Cloudinary URL is returned as it is; S3 and the disk are not
      consulted. */
  lemma CloudinaryPreferred(st: CloudStorage, sdk: CloudinarySdk, cloudReply: CloudinaryReply,
                            objectName: string)
    requires st.app.Some? && CloudinaryEnabled(sdk)
    requires Truthy(UploadCloudinary(sdk, cloudReply))
    ensures forall s3Reply: S3Reply ::
              st.UploadFile(sdk, cloudReply, s3Reply, objectName) == UploadCloudinary(sdk, cloudReply)
  {
  }

  /** When Cloudinary is off or yields no URL, the upload ends exactly where
      it would without the SDK. */
  lemma CloudinaryFallsThrough(st: CloudStorage, sdk: CloudinarySdk, cloudReply: CloudinaryReply,
                               s3Reply: S3Reply, objectName: string)
    requires st.app.Some?
    requires !CloudinaryEnabled(sdk) || !Truthy(UploadCloudinary(sdk, cloudReply))
    ensures st.UploadFile(sdk, cloudReply, s3Reply, objectName)
            == st.UploadFile(NotInstalled, Raised, s3Reply, objectName)
  {
  }

  /** The upload yields nothing exactly when Cloudinary gave no URL, an S3
      client exists and S3 reported a client error: a Cloudinary failure on
      its own never does. Any URL returned is non-empty. */
  lemma UploadFileFailsOnlyOnClientError(st: CloudStorage, sdk: CloudinarySdk,
                                         cloudReply: CloudinaryReply, s3Reply: S3Reply,
                                         objectName: string)
    requires st.app.Some?
    ensures var url := st.UploadFile(sdk, cloudReply, s3Reply, objectName);
            && (url.None? <==> !(CloudinaryEnabled(sdk) && Truthy(UploadCloudinary(sdk, cloudReply)))
                               && st.s3Client.Some? && s3Reply == ClientFailure)
            && (url.Some? ==> url.value != "")
  {
  }

  /** Without an S3 client, or when S3 reports missing credentials, a
      non-Cloudinary upload lands in the local directory. */
  lemma UploadFileLocalFallback(st: CloudStorage, s3Reply: S3Reply, objectName: string)
    requires st.app.Some?
    requires st.s3Client.None? || s3Reply == NoCredentials
    ensures st.UploadFile(NotInstalled, Raised, s3Reply, objectName) == Some("/uploads/" + objectName)
  {
  }

  /** The two forms of a stored object's S3 URL. Without an endpoint the
      configured region is used; an unset region reads as `us-east-1`, and
      a region set to `None` prints as `None`. */
  lemma S3UrlForms(app: AppConfig, bucket: string, objectName: string)
    ensures Truthy(Get(app.endpointUrl))
            ==> S3Url(app, Some(bucket), objectName) == app.endpointUrl.s + "/" + bucket + "/" + objectName
    ensures !Truthy(Get(app.endpointUrl)) && app.region.Text?
            ==> S3Url(app, Some(bucket), objectName) == HostedUrl(bucket, app.region.s, objectName)
    ensures !Truthy(Get(app.endpointUrl)) && app.region.Unset?
            ==> S3Url(app, Some(bucket), objectName) == HostedUrl(bucket, DefaultRegion, objectName)
    ensures !Truthy(Get(app.endpointUrl)) && app.region.Null?
            ==> S3Url(app, Some(bucket), objectName) == HostedUrl(bucket, "None", objectName)
  {
  }

  /** When Cloudinary gives no URL and an S3 client exists, a stored object
      is reported at its S3 URL, built from the configuration and bucket
      `init_app` recorded. */
  lemma UploadFileS3Stored(st: CloudStorage, sdk: CloudinarySdk, cloudReply: CloudinaryReply,
                           objectName: string)
    requires st.app.Some? && st.s3Client.Some?
    requires !CloudinaryEnabled(sdk) || !Truthy(UploadCloudinary(sdk, cloudReply))
    ensures st.UploadFile(sdk, cloudReply, S3Stored, objectName)
            == Some(S3Url(st.app.value, st.bucketName, objectName))
  {
  }

  /** After configuring a fresh storage object, an S3 client exists exactly
      when both credentials are non-empty. */
  method ConfiguredClientExists(config: AppConfig) returns (st: CloudStorage)
    ensures st.s3Client.Some? <==> Truthy(Get(config.accessKeyId)) && Truthy(Get(config.secretAccessKey))
    ensures st.app == Some(config)
  {
    st := new CloudStorage();
    st.InitApp(config);
  }

  /** What `get_pdf_info` learns from the file: the page count PyPDF2
      reports together with the buffer length (when the file has
      `getvalue`) and `content_length`, or a failure anywhere in reading. */
  datatype PdfReading = Read(pages: nat, buffered: Option<nat>, contentLength: Option<int>)
                      | Unreadable

  datatype PdfInfo = PdfInfo(pageCount: int, fileSize: Option<int>)

  /** `get_pdf_info`: never fails; an unreadable file reports zero pages
      and zero bytes. */
  function GetPdfInfo(reading: PdfReading): (info: PdfInfo)
    ensures reading.Unreadable? ==> info == PdfInfo(0, Some(0))
    ensures reading.Read? ==> info.pageCount == reading.pages >= 0
    ensures reading.Read? && reading.buffered.Some? ==> info.fileSize == Some(reading.buffered.value)
    ensures reading.Read? && reading.buffered.None? ==> info.fileSize == reading.contentLength
  {
    match reading
    case Unreadable => PdfInfo(0, Some(0))
    case Read(pages, buffered, contentLength) =>
      PdfInfo(pages, if buffered.Some? then Some(buffered.value as int) else contentLength)
  }
}
