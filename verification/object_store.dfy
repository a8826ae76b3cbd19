/** The S3 bucket the wrapper talks to, as the four requests the modelled
    code makes of it (`doesObjectExist`, `getObjectMetadata`, `getObject`,
    and the put the transfer manager performs), each recorded in a request
    log so that properties can say which requests were made. */
module ObjectStore {
  import opened Common

  /** An S3 storage class, named as the SDK's enum names it. */
  datatype StorageClass = StorageClass(name: string)

  const Standard := StorageClass("STANDARD")

  /** A stored object: its user metadata, its body and its storage class. */
  datatype S3Object = S3Object(metadata: map<string, string>, body: seq<byte>, storageClass: StorageClass)

  datatype Request =
    | DoesObjectExist(key: string)
    | GetObjectMetadata(key: string)
    | GetObject(key: string)
    | PutObject(key: string, obj: S3Object)

  /** The bucket: its objects, the keys on which every request is answered
      with an error response (access denied), and the requests made so far. */
  datatype Store = Store(objects: map<string, S3Object>, denied: set<string>, log: seq<Request>) {

    function Record(request: Request): (s: Store)
      ensures s.objects == objects && s.denied == denied && s.log == log + [request]
    {
      Store(objects, denied, log + [request])
    }

    /** `doesObjectExist`. */
    function Exists(key: string): (out: (Store, Result<bool>))
      ensures out.0 == Record(DoesObjectExist(key))
      ensures out.1.Success? <==> key !in denied
      ensures out.1.Success? ==> (out.1.value <==> key in objects)
      ensures out.1.Failure? ==> out.1.error == AwsService(key)
    {
      (Record(DoesObjectExist(key)),
       if key in denied then Failure(AwsService(key)) else Success(key in objects))
    }

    /** `getObjectMetadata`: a missing key is answered with 404, which the
        SDK raises as a service exception. */
    function Metadata(key: string): (out: (Store, Result<map<string, string>>))
      ensures out.0 == Record(GetObjectMetadata(key))
      ensures out.1.Success? <==> key in objects && key !in denied
      ensures out.1.Success? ==> out.1.value == objects[key].metadata
      ensures out.1.Failure? ==> out.1.error == AwsService(key)
    {
      (Record(GetObjectMetadata(key)),
       if key in objects && key !in denied then Success(objects[key].metadata) else Failure(AwsService(key)))
    }

    /** `getObject`: the object's content stream, as its bytes. */
    function Get(key: string): (out: (Store, Result<seq<byte>>))
      ensures out.0 == Record(GetObject(key))
      ensures out.1.Success? <==> key in objects && key !in denied
      ensures out.1.Success? ==> out.1.value == objects[key].body
      ensures out.1.Failure? ==> out.1.error == AwsService(key)
    {
      (Record(GetObject(key)),
       if key in objects && key !in denied then Success(objects[key].body) else Failure(AwsService(key)))
    }

    /** A completed upload: the key now holds exactly the new object,
        whatever it held before. */
    function Put(key: string, obj: S3Object): (out: (Store, Result<()>))
      ensures out.1.Success? <==> key !in denied
      ensures out.1.Success? ==> out.0.objects == objects[key := obj]
      ensures out.1.Failure? ==> out.0.objects == objects && out.1.error == AwsService(key)
      ensures out.0.denied == denied && out.0.log == log + [PutObject(key, obj)]
    {
      var logged := Record(PutObject(key, obj));
      if key in denied then (logged, Failure(AwsService(key)))
      else (Store(objects[key := obj], denied, logged.log), Success(()))
    }
  }

  /** The number of puts in a request log. */
  function Puts(log: seq<Request>): (n: nat)
    ensures n <= |log|
    ensures n == 0 <==> forall i :: 0 <= i < |log| ==> !log[i].PutObject?
  {
    if log == [] then 0 else Puts(log[..|log| - 1]) + (if log[|log| - 1].PutObject? then 1 else 0)
  }

  lemma {:induction false} PutsAppend(a: seq<Request>, b: seq<Request>)
    ensures Puts(a + b) == Puts(a) + Puts(b)
    decreases |b|
  {
    if b == [] {
      assert a + b == a;
    } else {
      assert (a + b)[..|a + b| - 1] == a + b[..|b| - 1];
      PutsAppend(a, b[..|b| - 1]);
    }
  }
}
