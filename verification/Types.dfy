/** The entities the gateway passes around. */
module Types {
  import opened Text

  datatype BackendType = S3 | Azure | Gcs

  datatype BucketConfig = BucketConfig(
    name: string,
    backendType: BackendType,
    backendPrefix: Option<string>,
    anonymousAccess: bool,
    options: map<string, string>)
  {
    predicate IsS3Backend() {
      backendType.S3?
    }

    function OptionOr(key: string, default: string): string {
      if key in options then options[key] else default
    }
  }

  datatype Action =
    | ActGetObject | ActGetObjectVersion | ActHeadObject | ActPutObject | ActListBucket
    | ActCreateMultipartUpload | ActUploadPart | ActCompleteMultipartUpload
    | ActAbortMultipartUpload | ActDeleteObject

  datatype Method = GET | HEAD | PUT | POST | DELETE | OtherMethod

  datatype S3Operation =
    | GetObject(bucket: string, key: string, version: Option<string>)
    | HeadObject(bucket: string, key: string)
    | PutObject(bucket: string, key: string)
    | CreateMultipartUpload(bucket: string, key: string)
    | UploadPart(bucket: string, key: string, uploadId: string, partNumber: nat)
    | CompleteMultipartUpload(bucket: string, key: string, uploadId: string)
    | AbortMultipartUpload(bucket: string, key: string, uploadId: string)
    | DeleteObject(bucket: string, key: string)
    | CopyObject(bucket: string, key: string, srcBucket: string, srcKey: string, srcVersion: Option<string>)
    | DeleteObjects(bucket: string)
    | ListBucket(bucket: string, rawQuery: Option<string>)
    | ListBuckets
  {
    function HttpMethod(): Method {
      match this
      case GetObject(_, _, _) => GET
      case ListBucket(_, _) => GET
      case ListBuckets => GET
      case HeadObject(_, _) => HEAD
      case PutObject(_, _) => PUT
      case UploadPart(_, _, _, _) => PUT
      case CopyObject(_, _, _, _, _) => PUT
      case DeleteObject(_, _) => DELETE
      case AbortMultipartUpload(_, _, _) => DELETE
      case CreateMultipartUpload(_, _) => POST
      case CompleteMultipartUpload(_, _, _) => POST
      case DeleteObjects(_) => POST
    }

    function RequiredAction(): Action {
      match this
      case GetObject(_, _, version) => if version.None? then ActGetObject else ActGetObjectVersion
      case HeadObject(_, _) => ActHeadObject
      case PutObject(_, _) => ActPutObject
      case CopyObject(_, _, _, _, _) => ActPutObject
      case ListBucket(_, _) => ActListBucket
      case CreateMultipartUpload(_, _) => ActCreateMultipartUpload
      case UploadPart(_, _, _, _) => ActUploadPart
      case CompleteMultipartUpload(_, _, _) => ActCompleteMultipartUpload
      case AbortMultipartUpload(_, _, _) => ActAbortMultipartUpload
      case DeleteObject(_, _) => ActDeleteObject
      case DeleteObjects(_) => ActDeleteObject
      case ListBuckets => ActListBucket
    }

    function TargetBucket(): Option<string> {
      if ListBuckets? then None else Some(bucket)
    }

    function ObjectKey(): string {
      if ListBucket? || ListBuckets? || DeleteObjects? then "" else key
    }
  }

  datatype AccessScope = AccessScope(bucket: string, prefixes: seq<string>, actions: seq<Action>)

  datatype Identity = Anonymous | Authenticated(principal: string, allowedScopes: seq<AccessScope>)

  datatype ProxyError =
    | InvalidRequest
    | NotImplemented
    | AccessDenied
    | MalformedXml
    | EntityTooLarge
    | BackendError
    | Internal
    | InvalidOidcToken(claim: string)
}
