/** The bytes a group signs: a message bound to its epoch and manifest (`src/context.rs`). */
module Context {
  import opened Words
  import opened Encoding
  import opened Buffers

  const SIGNING_CONTEXT_DOMAIN := "frostito/signing-context/v1"

  datatype SigningContext = SigningContext(epoch: U64, manifest: Bytes32, message: Bytes)

  function Encode(c: SigningContext): Bytes {
    Prefixed(Ascii(SIGNING_CONTEXT_DOMAIN)) + (U64Bytes(c.epoch) + (c.manifest + Prefixed(c.message)))
  }

  method EncodeInto(c: SigningContext, out: Buffer)
    modifies out
    ensures out.bytes == old(out.bytes) + Encode(c)
  {
    var domain := Ascii(SIGNING_CONTEXT_DOMAIN);
    out.Extend(U64Bytes(|domain|));
    out.Extend(domain);
    out.Extend(U64Bytes(c.epoch));
    out.Extend(c.manifest);
    out.Extend(U64Bytes(|c.message| % U64_LIMIT));
    out.Extend(c.message);
    Flatten(old(out.bytes), U64Bytes(|domain|), domain, U64Bytes(c.epoch), c.manifest,
            U64Bytes(|c.message| % U64_LIMIT), c.message);
  }

  lemma Flatten<T>(a: seq<T>, b: seq<T>, c: seq<T>, d: seq<T>, e: seq<T>, f: seq<T>, g: seq<T>)
    ensures a + b + c + d + e + f + g == a + ((b + c) + (d + (e + (f + g))))
  {}

  method EncodeFresh(c: SigningContext) returns (encoded: Bytes)
    ensures encoded == Encode(c)
  {
    var out := new Buffer();
    EncodeInto(c, out);
    encoded := out.bytes;
  }

  lemma Unfold<T>(a: seq<T>, b: seq<T>, c: seq<T>, d: seq<T>, e: seq<T>)
    ensures a + (b + (c + d)) + e == a + (b + (c + (d + e)))
  {}

  /** Distinct triples have distinct encodings, and none is a proper prefix of another. */
  lemma EncodePrefixFree(a: SigningContext, b: SigningContext, x: Bytes, y: Bytes)
    requires Encode(a) + x == Encode(b) + y
    requires |a.message| < U64_LIMIT && |b.message| < U64_LIMIT
    ensures a == b && x == y
  {
    var domain := Prefixed(Ascii(SIGNING_CONTEXT_DOMAIN));
    var am, bm := Prefixed(a.message) + x, Prefixed(b.message) + y;
    Unfold(domain, U64Bytes(a.epoch), a.manifest, Prefixed(a.message), x);
    Unfold(domain, U64Bytes(b.epoch), b.manifest, Prefixed(b.message), y);
    SplitEqual(domain, U64Bytes(a.epoch) + (a.manifest + am), domain, U64Bytes(b.epoch) + (b.manifest + bm));
    SplitEqual(U64Bytes(a.epoch), a.manifest + am, U64Bytes(b.epoch), b.manifest + bm);
    SplitEqual(a.manifest, am, b.manifest, bm);
    U64BytesInjective(a.epoch, b.epoch);
    PrefixedSplit(a.message, x, b.message, y);
  }

  /** The encoding is injective. */
  lemma EncodeInjective(a: SigningContext, b: SigningContext)
    requires Encode(a) == Encode(b)
    requires |a.message| < U64_LIMIT && |b.message| < U64_LIMIT
    ensures a == b
  {
    assert Encode(a) + [] == Encode(b) + [];
    EncodePrefixFree(a, b, [], []);
  }
}
