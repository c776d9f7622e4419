# Verified model of the SOAP server's core

This project models, in Dafny, the parts of the server in which the hard decisions are made, and proves what they are
for: which XML names survive cutting a SOAP body out of its envelope, which requests reach which handler and pass
validation, what the XSD resolver computes, how long a nonce is remembered and when a token can be replayed, what the
WSDL import walk gathers, what address rewriting changes, and which documents the cross-comparison tool considers equal.

XML is taken as the tokenizer delivers it: a sequence of events (`Xml.Event`), with well-formed documents given as trees
(`Xml.Forest`) and `Xml.Events` turning one into the other. Where the code writes tags by hand, what it writes is text
(`Tags.Write`), and what is found in it is what a reader of tags finds (`Tags.ReadAll`). Names are resolved by the rules
of Namespaces in XML 1.0, sections 6.1 to 6.3. Loops over events are methods proved equal to a recursive function on the
events; that function is then proved equal to a function on trees; the properties are proved about the tree function.
What several of these share (the scopes, the digest, the escaping, the order of keys, the fields of a record) is fixed
by laws of its own, stated over the inputs and not through the function. Hash maps whose iteration order the code
depends on are iterated in an arbitrary order, so every result holds for all orders.

| files | what they model |
|---|---|
| `NonceCache`, `Base64`, `UsernameToken`, `ProofReplay` | the rotating nonce cache, and replay protection over whole runs of requests |
| `SchemaTypes`, `Reachability`, `SchemaLoader`, `TypeDenotation`, `ExpandedLists`, `TypeResolver`, `SchemaResolver` | loading and flattening XSD types |
| `Xml`, `Tags`, `Namespaces` | events and trees, tags as text, namespace scopes |
| `Envelope`, `EnvelopeReader`, `EnvelopeMeaning`, `EnvelopeParts`, `FragmentReading`, `EnvelopeRouting` | splitting and serialising envelopes |
| `Ordering`, `Canonical`, `Canonicalizer`, `CanonicalComplete`, `CanonicalText`, `CanonicalContent`, `CanonicalBytes`, `CanonicalReread` | prefix canonicalisation |
| `Filters`, `Masks` | dropping and masking parts of a document |
| `WsdlTypes`, `WsdlImports`, `WsdlOrder`, `InlineSchemas`, `LostDeclarations`, `WsdlResolver` | WSDL imports, and the types of their inline schemas |
| `WsdlAddress`, `WsdlAddressMeaning` | address rewriting |
| `Dispatch`, `Validation`, `Particles`, `RequestHandling` | the dispatch table, structural validation, and the two composed with the rest |
| `CivilDate` | the day-count conversion of the ONVIF test |

Where the code does something else than its comments or the standards it implements say, the model follows the code:

- `src/envelope.rs:154-160` says only the first binding of a prefix is emitted. The emitting loops write every inherited
  binding, so a prefix declared on both Envelope and Body (or Header), and not on the child itself, comes out twice.
  `EnvelopeMeaning.Clashes` is that condition; `FragmentReading.FragmentWellFormedExactlyWhen` shows it is exact.
- `src/envelope.rs:243-249` and the other emitting loops write every attribute value between double quotes, whatever
  quotes it had. A value that holds a double quote changes its tag: the body is then read otherwise than it was sent
  (`FragmentReading.FragmentReadsBackExactlyWhen`), can get an attribute twice
  (`FragmentReading.QuoteRepeatsAttribute`), and can be routed under a name it does not have
  (`EnvelopeRouting.QuoteMisroutes`).
- `crossref/src/normalize.rs:371-378` writes namespace URIs without escaping them. The canonical form reads back as it
  was meant exactly when no namespace in use holds a double quote (`CanonicalText.CanonicalFormReadsBackExactlyWhen`);
  otherwise two documents that mean different things can have one canonical form
  (`CanonicalText.QuotedNamespaceCollides`). `crossref/src/normalize.rs:715-721` does the same to attribute values, so
  that a masked attribute can come through (`Masks.QuotedValueLeaks`).
- `src/wssec/username_token.rs:54-82` pads a nonce before decoding it, while the cache remembers it as it was written. A
  digest can therefore be presented again with its nonce respelled, unless the nonce is a multiple of three bytes long
  (`ProofReplay.ProofSafeExactlyWhen`).
- `src/server.rs:33-35` ships a tolerance of 300 s with a half-window of 150 s;
  `UsernameToken.DefaultsAreNotReplaySafe` shows that a token can then be let through twice.
- `src/xsd/resolver.rs:344-347` puts the global declaration in the place of an element reference, whose own `minOccurs`
  is lost; optional references are then demanded. `Particles.VerdictsAreTheSchemasExactlyWhen` says when the verdicts
  are those the schema's own particles call for.
- `src/dispatch.rs:371-443` exempts the branches of a choice from being required, but extension turns a base's content
  into a sequence first; `Validation.ChoicesAreExemptExactlyWhen` says when the exemption survives.
- `src/dispatch.rs:371-443` checks the elements of the whole extension chain, as far as the declaring schema knows them.
  What is declared in a file that an earlier inline schema has loaded is not known to a later one;
  `LostDeclarations.LossesUncheckedExactlyWhen` says when that makes a difference.
- `src/dispatch.rs:223` says the registry has been populated for RPC types. The registry holds what the inline schemas
  declare and nothing else (`InlineSchemas.KnownExactlyWhen`), so an RPC request is validated only if a schema happens to
  declare a type named like the operation (`RequestHandling.RpcRequestsAreValidatedExactlyWhen`).
- `src/wsdl/resolver.rs:331-345` treats a self-closing port of the target service as entered, and stays there until the
  next end tag; `WsdlAddressMeaning.ServiceRewriteIsTreeExactlyWhen` says which documents that spoils.

## Model

| member | source | states |
|---|---|---|
| NonceCache.RotatingNonceCache.WithMaxEntries | src/wssec/nonce_cache.rs:54-62 | A new cache is empty and its first bucket starts now. |
| NonceCache.RotatingNonceCache.RotateIfNeeded | src/wssec/nonce_cache.rs:90-98 | For a half-window of at least one second the loop ends in the closed form: with k whole half-windows elapsed, the buckets stay (k = 0), shift once (k = 1) or empty (k >= 2), and the start moves by k half-windows. |
| NonceCache.RotatingNonceCache.CheckAndInsert | src/wssec/nonce_cache.rs:72-88 | The new state and the verdict of one check, with the timed rotation, the replay test and the forced rotation in the code's order. |
| NonceCache.RotatedWindow | src/wssec/nonce_cache.rs:90-98 | Rotation leaves the clock inside the current half-window and discards exactly what is one or two half-windows old. |
| NonceCache.RepeatIsRejected | src/wssec/nonce_cache.rs:72-98 | Over any run, a nonce accepted at t is rejected at every check before t + half-window, as long as at most `max_entries` other nonces were accepted in between, whatever the mix of timed and forced rotations. |
| NonceCache.RepeatIsRejectedAlone | src/wssec/nonce_cache.rs:72-88 | With capacity zero and no other acceptance, the rejection lasts two half-windows. |
| NonceCache.RepeatIsAccepted | src/wssec/nonce_cache.rs:72-98 | At any check two half-windows or more after its last acceptance, the nonce is accepted again. |
| NonceCache.EntryAlwaysSound | src/wssec/nonce_cache.rs:72-98 | Invariant of every run from an empty cache: whatever is in `current` was accepted in [b, b + h), whatever is in `previous` in [b - h, b], b being the bucket start. |
| NonceCache.BucketsBounded | src/wssec/nonce_cache.rs:82-88 | Neither bucket ever holds more than max(1, `max_entries`) nonces. |
| UsernameToken.ValidateUsernameToken | src/wssec/username_token.rs:244-307 | The result and the effect on the cache, with the checks in the code's order. |
| UsernameToken.AcceptedExactlyWhen | src/wssec/username_token.rs:244-307 | A token is accepted exactly when its user is stored; a digest is the hash of the bytes its nonce decodes to, of its Created and of the stored password, or a plain-text password is the stored one; its Created lies within the tolerance of the clock on either side; and a nonce, if carried, is new to the cache at that time. The result is the user's name. |
| UsernameToken.FaultsAre | src/wssec/username_token.rs:244-307 | Which error a rejected token gets, for every way it can fall short; a digest is compared before Created is looked at, a plain-text password after it, and a remembered nonce comes last. |
| UsernameToken.DigestBindsPassword | src/wssec/username_token.rs:54-82 | Where the hash tells its arguments apart, a digest token accepted under one stored password is accepted under no other, at any time and in any state. |
| UsernameToken.DigestBindsCreatedAndNonce | src/wssec/username_token.rs:54-82 | Nor is it accepted with its Created, or the bytes its nonce decodes to, changed alone. |
| UsernameToken.RejectionInsertsNothing | src/wssec/username_token.rs:244-307 | A rejected request leaves no new nonce behind. |
| UsernameToken.TokenAtMostOnce | src/wssec/username_token.rs:244-307 | With 2 * tolerance below the guaranteed time and the rate bound, no run lets a nonce-carrying token that is sent again as it was through twice. |
| UsernameToken.ReplaySafeExactlyWhen | src/wssec/username_token.rs:244-307 | The settings keep every run from letting an unchanged token through twice if and only if 2 * tolerance is less than one half-window (two, when the capacity is zero); otherwise a concrete run replays a token. |
| UsernameToken.DefaultsAreNotReplaySafe | src/server.rs:33-35 | The shipped defaults do not meet that condition. |
| Base64.DecodeInjective | src/wssec/username_token.rs:54-82 | A decoded value has one padded text only. |
| Base64.RespelledExactlyWhen | src/wssec/username_token.rs:54-82 | Because of the padding, a nonce has another spelling that decodes the same if and only if it is no multiple of three bytes long. |
| Base64.DecodeEncode | src/wssec/username_token.rs:54-82 | Decoding undoes the encoding of RFC 4648, section 4: groups of three bytes as a 24-bit number, written in its alphabet, padded at the end. |
| ProofReplay.ProofLetThroughOnce | src/wssec/username_token.rs:54-307 | With the same settings and rate bound, no run lets a proof (user, decoded nonce, Created, digest) through twice, when its nonce is a multiple of three bytes long or always spelled in full groups of four. |
| ProofReplay.RespelledIsLetThrough | src/wssec/username_token.rs:54-307 | Whatever the settings, right after a digest token was let through its proof passes again under another spelling of the nonce that the cache does not hold. |
| ProofReplay.ProofSafeExactlyWhen | src/wssec/username_token.rs:54-307 | The settings protect all proofs with nonces of a given length in every ordinary run if and only if 2 * tolerance is less than the guaranteed time and the length is a multiple of three bytes; otherwise a concrete run replays one. |
| CivilDate.AlwaysValid | tests/onvif_integration_test.rs:75-92 | Every day count gives a valid Gregorian date, from 1970 on. |
| CivilDate.SuccessiveDays | tests/onvif_integration_test.rs:75-92 | The next day count gives the calendar's next day. |
| CivilDate.RoundTrip | tests/onvif_integration_test.rs:75-92 | Counting the days up to the date, leap year by leap year, gives the day count back. |
| SchemaLoader.SchemaCollector.CollectAllSchemas | src/xsd/resolver.rs:111-164 | Terminates on cyclic imports; succeeds if and only if every location reachable without entering what was loaded at entry loads; each location is loaded at most once; the schemas are processed last named first, each when everything named after it is done; an error names a reachable location that does not load. |
| SchemaLoader.LastDeclarationWins | src/xsd/resolver.rs:126-130 | Of several declarations of one type, element, group or attribute group, the one in the schema processed last is kept. |
| SchemaLoader.LeavesAreProcessedBackwards | src/xsd/resolver.rs:111-164 | When what the root names names nothing further, the root is processed first, then its includes and its imports, each last first. |
| SchemaLoader.CollectedTypeNames | src/xsd/resolver.rs:111-164 | The type names collected are exactly those declared by the root and the reachable schemas. |
| TypeResolver.Resolver.ResolveNamedType | src/xsd/resolver.rs:167-217 | Keeps the memo a partial solution and restores the in-progress set; a cycle error names a type that really extends itself. |
| TypeResolver.Resolver.ResolveContent | src/xsd/resolver.rs:236-294 | Content comes out flattened: base's elements then own for an extension, own only for a restriction. |
| TypeResolver.Resolver.ResolveElementList | src/xsd/resolver.rs:312-359 | Group references replaced by the group's expanded elements, in place and in order. |
| TypeResolver.Resolver.ExpandAttributeGroup | src/xsd/resolver.rs:379-390 | An attribute group expands to its own attributes followed by those of the groups it names. |
| ExpandedLists.ExpandAppends | src/xsd/resolver.rs:312-359 | A list expands entry by entry, in place and in order. |
| ExpandedLists.EntryExpands | src/xsd/resolver.rs:312-359 | A list of one entry: a wildcard or a declaration stays as it is, a reference becomes the expansion of its group, or else the global element, or else nothing. |
| ExpandedLists.ExpandedExactlyWhen | src/xsd/resolver.rs:312-359 | An element is in the expansion if and only if a path of group references from the list leads to an entry that is it or refers to it. |
| ExpandedLists.GroupAttributesAre | src/xsd/resolver.rs:379-390 | An attribute group's list starts with its own attributes and goes on with those of the groups it names, in the order named. |
| ExpandedLists.GroupHasExactlyWhen | src/xsd/resolver.rs:379-390 | It holds exactly the attributes of the groups that a path of names leads to. |
| ExpandedLists.AttributeExpands | src/xsd/resolver.rs:362-376 | A list of one attribute: a reference to a group becomes that group's list; everything else stays, unknown references too. |
| TypeResolver.Resolver.ResolveAllTypes | src/xsd/resolver.rs:56-74 | For any visiting order: CycleDetected if and only if some complex type reaches itself through extension bases, and otherwise the memo solves the flattening equations for every complex type. |
| TypeDenotation.UniqueSolution | src/xsd/resolver.rs:56-74 | Acyclic types have only one solution, so the result does not depend on the visiting order. |
| TypeDenotation.LayeredIsAcyclic | src/xsd/resolver.rs:167-217 | Types that could be recorded one after another, bases first, contain no cycle. |
| SchemaResolver.ResolveSchema | src/xsd/resolver.rs:37-108 | Succeeds if and only if everything reachable loads and no type extends itself; the registry is then the one the unique solution gives rise to, anonymous element types included. |
| SchemaResolver.RegistryHolds | src/xsd/resolver.rs:56-105 | Which names are registered and what each stands for: the declared type's name, its attributes with groups opened, its own form (an extension a sequence); an element's anonymous type only where no type has the name. |
| SchemaResolver.BaseElementsFirst | src/xsd/resolver.rs:236-294 | A flattened type, named or anonymous, holds the elements of its whole extension chain, ancestors first (XML Schema Part 1, section 3.4.2). |
| SchemaResolver.LevelElementsAre | src/xsd/resolver.rs:236-294 | What one level of the chain contributes: the expanded list of its sequence, `all` or choice, looked at through restrictions, and nothing otherwise. |
| SchemaResolver.EveryTypeHasChain | src/xsd/resolver.rs:167-294 | Without cycles every type heads an extension chain. |
| SchemaResolver.EveryContentHasBases | src/xsd/resolver.rs:236-294 | So does every content model, that of an anonymous type included; the rule above covers every type. |
| Validation.ParseChildElementNames | src/dispatch.rs:445-491 | The loop gathers the names that start one level below the root. |
| Validation.CollectedAreChildTags | src/dispatch.rs:445-491 | On any events at all, the names gathered are those of the tags that stand exactly one element deep, up to the first end tag that ends nothing. |
| Validation.NamesAreChildNames | src/dispatch.rs:445-491 | On well-formed input those are exactly the local names of the root's direct children. |
| Validation.ValidateRequest | src/dispatch.rs:371-443 | Succeeds if and only if every required name of the type is present, or there is no type to check against; an error names a required element that is missing. |
| Validation.CollectedAreRequired | src/dispatch.rs:406-443 | What is collected from a content model: below extensions and restrictions, the named elements of a sequence or an `all` with minOccurs > 0; nothing from a choice. |
| Validation.CollectedAreDemanded | src/dispatch.rs:406-443 | The names collected for a flattened type are those of the elements with minOccurs > 0 at some level of its extension chain, where the declaration of a global element stands for every reference to it and decides whether it is required; none are if the type is a choice that extends nothing. |
| Validation.NamedAndAnonymousTypesAreRegistered | src/xsd/resolver.rs:76-105 | The registry holds every declared complex type under its name, and the anonymous type of an element under the element's name unless a type has that name. |
| Validation.AcceptedExactlyWhen | src/dispatch.rs:371-491 | For a named or anonymous complex type as registered: accepted if and only if every such name is that of a direct child of the body's root, or the type is a choice that extends nothing. |
| Particles.VerdictsAreTheSchemasExactlyWhen | src/xsd/resolver.rs:312-359 | The verdict is the one the schema's own particles call for (references by their own minOccurs and the global element's name, group references opened, branches of choices optional, wildcards nameless), for all bodies, if and only if the type is a choice that extends nothing, or no optional reference, wildcard or branch demands a name that no required particle asks for, and no required reference to an element unknown or declared optional asks for a name that is not demanded. |
| Particles.OptionalReferenceIsDemanded | src/xsd/resolver.rs:344-347 | A schema in which that fails: a type whose only particle is an optional reference rejects an empty body. |
| Validation.LoneChoiceAcceptsEverything | src/dispatch.rs:414-443 | A type that is a choice and extends nothing accepts every body. |
| Validation.ChoicesAreExemptExactlyWhen | src/dispatch.rs:414-443 | Acceptance means having what the levels that are not choices require, for all bodies, if and only if the type extends nothing or no choice on its chain requires an element that is not required beside the choices anyway. |
| Validation.ChoiceInChainDemandsEveryBranch | src/dispatch.rs:414-443 | A schema in which that fails: the base, a choice, accepts everything, and the type derived from it demands every branch. |
| EnvelopeReader.CollectNsFromAttrs | src/envelope.rs:161-186 | A tag's bindings go before the inherited ones, in the order written. |
| EnvelopeReader.CollectHeaderChildren | src/envelope.rs:189-359 | The loop agrees with its specification on any events, and leaves the reader where that says. |
| EnvelopeReader.ExtractBodyFirstChild | src/envelope.rs:362-535 | Likewise for the Body's first child. |
| EnvelopeReader.ParseEnvelope | src/envelope.rs:29-152 | The reader loops compute `Envelope.Parse` on any event stream, errors included; fragments come out as text. |
| EnvelopeMeaning.ParseDocument | src/envelope.rs:29-152 | On a document whose root is a SOAP envelope, parsing is the tree function that splits Header and Body off. |
| Tags.TagReadsBackExactlyWhen | src/envelope.rs:385-399 | A tag written with its values between double quotes reads back as the same tag, whatever follows it, if and only if no value in it holds a double quote. |
| Tags.ReadsBackExactlyWhen | src/envelope.rs:420-535 | So does a stream of events. |
| Tags.WrittenAs | src/envelope.rs:402-414 | Tags as written, character by character. |
| Namespaces.DeclaredIs | src/envelope.rs:161-186 | A well-formed tag binds a prefix to a URI if and only if the attribute `xmlns:prefix`, or `xmlns` for the empty prefix, with that value is on it. |
| Namespaces.NearestDecides | src/envelope.rs:29-62 | The nearest declaration decides; an empty URI undeclares; unprefixed attributes are in no namespace (Namespaces in XML 1.0, sections 6.1 and 6.2). |
| FragmentReading.FragmentReadsBackExactlyWhen | src/envelope.rs:362-535 | An extracted fragment reads back as the element it was cut from, cleaned and with the inherited declarations, if and only if no value on its root, inherited URIs included, or below holds a double quote. |
| FragmentReading.FragmentHoldsItsElement | src/envelope.rs:362-535 | A fragment without double quotes in its values is read as its element, event by event: the inherited declarations, then every tag, every piece of text and every entity reference, and no CDATA section, comment or PI. |
| FragmentReading.SectionFreeIsClean | src/envelope.rs:471-474 | Cleaning changes nothing if and only if there is no CDATA section, comment or PI. |
| FragmentReading.FragmentKeepsMeaningExactlyWhen | src/envelope.rs:227-240 | Such a fragment, read alone, gives every element and attribute name the expanded name it has in the document if and only if no prefix that the element leaves free is declared differently by the two ancestors. |
| FragmentReading.FragmentWellFormedExactlyWhen | src/envelope.rs:402-414 | Without double quotes in its values, the root tag that is read repeats no attribute if and only if no prefix clashes. |
| FragmentReading.QuoteRepeatsAttribute | src/envelope.rs:385-399 | With one, it can: for all names and values, an attribute that holds a quote and then its own name again comes back twice, though no prefix clashes. |
| EnvelopeRouting.ExtractBodyQName | src/server.rs:535-569 | The routing key is the expanded name of the first tag read in the text. |
| EnvelopeRouting.RoutedCorrectlyExactlyWhen | src/server.rs:535-569 | When no value on the fragment's root holds a double quote, the key is the name the body has in its document, if and only if the body's prefix is not declared differently by Envelope and Body with the body itself silent. |
| EnvelopeRouting.QuoteMisroutes | src/envelope.rs:385-399 | With one, it need not be: for every URI, a body in no namespace is routed as if it were in that namespace. |
| EnvelopeRouting.SplitFindsLastBody | src/envelope.rs:65-152 | Splitting succeeds if and only if every Body has a child element, and the last Body counts. |
| EnvelopeParts.LastPartsAre | src/envelope.rs:65-152 | The Header and the Body that count are the last children of the envelope, not self-closing, with that local name in one of the two SOAP namespaces. |
| EnvelopeParts.BodiesFilledIs | src/envelope.rs:362-399 | The condition for splitting to succeed, read off the children: each of them that is such a Body has a child element. |
| EnvelopeParts.RequestFaults | src/envelope.rs:29-152 | A document without an Envelope, one whose Envelope is in neither SOAP namespace, and one without a Body or with an empty one, each give their own error. |
| EnvelopeRouting.BodyIsRoutedByItsName | src/envelope.rs:29-152 | Parsing any request yields its version and the text of its body. That text reads back as the body, event by event, when no value in it holds a double quote; when none on its root does, it routes by the body's name in the document if and only if the condition on its own prefix holds. |
| EnvelopeRouting.HeaderBlocksKeepMeaning | src/envelope.rs:189-359 | Every block of the last Header is extracted, in order; one without double quotes in its values reads back as that block, event by event, and with the meaning it has in the document if and only if no prefix it leaves free is declared differently around it. |
| EnvelopeRouting.SerializedAs | src/envelope.rs:564-578 | A serialised envelope is, character by character, the body between the tags of `env:Envelope` and `env:Body`, with the namespace of its version declared. |
| EnvelopeRouting.SerializedReadsBackExactlyWhen | src/envelope.rs:564-578 | A serialised envelope reads back as the envelope around the body if and only if no value in the body holds a double quote. |
| EnvelopeRouting.ParseSerialized | src/envelope.rs:564-578 | Parsing it then gives the version, no headers, and the body itself with `env` declared on its root when it was not; CDATA sections, comments and PIs, if it has any, are gone. |
| EnvelopeRouting.SecondTripChangesNothing | src/envelope.rs:564-578 | A second serialise and parse leaves such a body as it is. |
| Canonicalizer.CollectUsedUris | crossref/src/normalize.rs:254-282 | The first pass computes the set of URIs of resolved names. |
| Canonicalizer.FirstPassFindsUsed | crossref/src/normalize.rs:254-308 | That set is exactly the namespaces in use in the document's meaning. |
| Canonicalizer.EmitAttrs | crossref/src/normalize.rs:344-434 | A tag's attributes come out renamed, escaped and sorted by their written names, declarations dropped. |
| CanonicalContent.ResolvedEscape | crossref/src/normalize.rs:436-446 | What an attribute value is written as holds no double quote and no less-than sign, and is the value again once the predefined entities are resolved (XML 1.0, section 4.6). |
| Canonicalizer.CanonicalizePrefixes | crossref/src/normalize.rs:157-252 | The two passes succeed exactly when the document has a canonical form, and return it as text. |
| CanonicalContent.DocumentMeans | crossref/src/normalize.rs:157-252 | The meaning the canonical form is made from is that of the document's tree, every name resolved in the scope it stands in and every piece of text kept. |
| CanonicalContent.CanonicalFormKeepsValues | crossref/src/normalize.rs:168-249 | The canonical text, read again with the entities in its attribute values resolved once, is the document as it was meant: every tag, character and value. |
| CanonicalContent.RootDeclaresUrisInOrder | crossref/src/normalize.rs:168-184 | Its root declares the namespaces in use under n0, n1, ... in the order of their URIs. |
| CanonicalText.CanonicalFormReadsBackExactlyWhen | crossref/src/normalize.rs:344-434 | The text of the canonical form reads back as the tags it was written for if and only if no namespace URI in use holds a double quote. |
| CanonicalText.CanonicalFormIsComplete | crossref/src/normalize.rs:157-434 | Two namespace-well-formed documents without such URIs have the same canonical form if and only if they mean the same: equal events once names are replaced by (URI, local), whatever the declarations, attribute order, comments and PIs. |
| CanonicalText.QuotedNamespaceCollides | crossref/src/normalize.rs:371-378 | With such a URI that fails: for all names and URIs, a document with one attribute and one whose URI holds a quote and that attribute have one canonical form. |
| CanonicalBytes.CanonicalBytesAreComplete | crossref/src/normalize.rs:157-434 | The equivalence holds of the bytes, tags and characters written in a row, for documents as a tokenizer gives them. |
| CanonicalBytes.BytesAre | crossref/src/normalize.rs:229-242 | CDATA sections and entity references as written, character by character, between tags and text. |
| CanonicalReread.CanonicalFormMeansTheSame | crossref/src/normalize.rs:168-249 | Without such URIs, the text read again is namespace-well-formed, and means the same as the input if and only if no attribute value holds `&`, `<` or a double quote. |
| CanonicalReread.CanonicalFormIsFixedPoint | crossref/src/normalize.rs:168-249 | Canonicalising the output changes nothing, under exactly the same condition. |
| CanonicalReread.DocumentsAreRooted | crossref/src/normalize.rs:168-249 | The shape those two results require is that of every well-formed document. |
| Ordering.SortedEqualExactlyWhen | crossref/src/normalize.rs:418-426 | Sorting gives equal sequences exactly for equal sets of entries. |
| CanonicalContent.LeqIsBefore | crossref/src/normalize.rs:418-426 | The order of keys and URIs: the first character that differs decides, and a prefix goes first. |
| Filters.DropSubtrees | crossref/src/normalize.rs:509-598 | The loop computes `Filters.DropFrom` on any event stream. |
| Filters.DropIsPrune | crossref/src/normalize.rs:509-598 | On any well-formed stream the stack machine is tree pruning: every element whose path matches a rule is gone, all else stays. |
| Filters.PruneKeepsSurvivors | crossref/src/normalize.rs:509-598 | What pruning keeps is exactly the elements with no rule at or above them, in order. |
| Filters.DropTwice | crossref/src/normalize.rs:509-598 | Dropping is idempotent. |
| Masks.ApplyMasks | crossref/src/normalize.rs:601-694 | The loop writes the text of `Masks.MaskFrom` for any event stream. |
| Masks.WriteMaskedAttrs | crossref/src/normalize.rs:697-729 | An element keeps the attributes no rule drops, sorted by written name. |
| Masks.MaskIsTree | crossref/src/normalize.rs:601-694 | On any well-formed stream masking is a tree function. |
| Masks.MaskedOutputReadsBackExactlyWhen | crossref/src/normalize.rs:697-729 | The text reads back as the masked tree if and only if no attribute value that is kept holds a double quote. |
| Masks.MaskedOutputNeverLeaks | crossref/src/normalize.rs:601-729 | Then it is read as a tree with no dropped attribute and, at masked paths, no character data other than the sentinel. |
| Masks.QuotedValueLeaks | crossref/src/normalize.rs:715-721 | Otherwise a dropped attribute can come through: it is read where an attribute that is kept holds a quote and then its name. |
| Masks.MaskedOutputsEqualExactlyWhen | crossref/src/normalize.rs:601-729 | Two documents, with no double quote in the values that are kept, give the same text if and only if they differ only in dropped attributes, attribute order and masked runs, of which only the comments and PIs count and where among them text first appears. |
| Masks.QuotedValuesCollide | crossref/src/normalize.rs:715-721 | With one, documents that keep different attributes can give the same text. |
| WsdlImports.ImportWalker.ResolveInner | src/wsdl/resolver.rs:60-113 | Terminates on cyclic imports and follows the depth-first walk: same visited and loaded locations, same error, inline schemas in the order the walk finishes their documents, and under every name the declaration the walk comes upon first, the root's own before all. |
| WsdlImports.EnteredIsReachable | src/wsdl/resolver.rs:60-113 | The walk ends well if and only if every location reachable on paths that avoid what was visited before loads; it has then entered exactly those, each once. |
| WsdlImports.DeclaredExactlyWhen | src/wsdl/resolver.rs:100-113 | The names in the result are exactly those of the root and of the reachable documents. |
| WsdlOrder.FirstDeclarationsAre | src/wsdl/resolver.rs:100-113 | Map by map (messages, port types, bindings, services), the result holds under a name exactly what the root declares, or else what the first document on the walk to declare it does. |
| WsdlOrder.ImportsComeFirst | src/wsdl/resolver.rs:60-113 | On any import graph, cyclic ones included, a document that another imports is finished before it, so that its schemas are resolved first, unless the walk entered it before the other and came back to it. |
| WsdlOrder.LeavesAreWalkedInOrder | src/wsdl/resolver.rs:60-113 | Documents that import nothing are entered and finished in the order they are named. |
| InlineSchemas.OrInsertAll | src/wsdl/resolver.rs:154-156 | Merging with `or_insert` keeps what is there. |
| InlineSchemas.SchemaAccumulator.AddSchema | src/wsdl/resolver.rs:120-157 | One inline schema joins those before it: an element has the type that the first schema to declare it with one gives, its own name for an anonymous type and the name referred to otherwise; its resolved types join, earlier ones winning; it is resolved against the locations earlier ones have loaded. |
| InlineSchemas.AccumulateSchemas | src/wsdl/resolver.rs:120-157 | All inline schemas in order, the elements' types included; an error is about the first that does not resolve given what those before it loaded. |
| InlineSchemas.ElementTypesAreGiven | src/wsdl/resolver.rs:132-147 | Laying the schemas' own element types over one another, earlier ones on top, is what that says of every element. |
| InlineSchemas.KnownExactlyWhen | src/wsdl/resolver.rs:120-166 | A name is in the accumulated registry if and only if some inline schema, with what it pulled in, declares a type of that name or an element with an anonymous complex type. |
| InlineSchemas.KnownTypeIsFirst | src/wsdl/resolver.rs:120-166 | A complex type in it is the one of the first such schema, flattened with the types that schema collected. |
| LostDeclarations.BaseIsLostExactlyWhen | src/xsd/resolver.rs:132-160 | A base is unknown to a schema if and only if neither the schema nor anything it reaches without entering what earlier schemas loaded declares it. |
| LostDeclarations.BasesAreCut | src/xsd/resolver.rs:236-294 | An extension chain then stops at the first base that is unknown. |
| LostDeclarations.LevelSplits | src/xsd/resolver.rs:312-359 | A level holds what it would hold with nothing loaded before, less what it refers to in files loaded before, plus the elements taken for groups there. |
| LostDeclarations.LossesUncheckedExactlyWhen | src/wsdl/resolver.rs:120-157 | Requests are validated as if the schema had been resolved with nothing loaded before it if and only if its type is a lone choice, or every name demanded only by a lost base or through a reference into a file loaded earlier is demanded by what the schema knows, and every element taken for a group is demanded anyway. |
| WsdlResolver.ResolveWsdl | src/wsdl/resolver.rs:42-168 | Definitions and types together: fails if and only if a reachable document does not load or a schema, met in order, does not resolve; otherwise the merged definitions, the accumulated registry, and for every element the type the first schema to declare it with one gives. |
| WsdlAddress.RewriteWsdlAddress | src/wsdl/resolver.rs:389-455 | The loop computes `WsdlAddress.AllFrom` on any event stream. |
| WsdlAddress.AddressReadsBackExactlyWhen | src/wsdl/resolver.rs:402-445 | A rewritten address, the only tag that is not written as it was read, reads back if and only if no other value in it holds a double quote. |
| WsdlAddress.FindPorts | src/wsdl/resolver.rs:207-279 | The first pass, on any event stream, as a state machine. |
| WsdlAddress.RewritePorts | src/wsdl/resolver.rs:281-383 | The second pass, on any event stream, as a state machine. |
| WsdlAddress.RewriteWsdlAddressForService | src/wsdl/resolver.rs:193-383 | The two passes together, and the fall-back to rewriting everything for an empty service name. |
| WsdlAddressMeaning.AllFromIsTree | src/wsdl/resolver.rs:389-455 | Rewriting everything is the tree map that changes only `location` on addresses. |
| WsdlAddressMeaning.NameAttrIs | src/wsdl/resolver.rs:223-263 | The name a service or port goes by is the value of the first attribute written `name`, without a prefix; none is the empty name. |
| WsdlAddressMeaning.NoServiceRewritesAll | src/wsdl/resolver.rs:193-206 | For an empty service name every element called `address` gets the new location, whatever its prefix. |
| WsdlAddressMeaning.FirstPassFindsPorts | src/wsdl/resolver.rs:207-279 | Where services are not nested, the first pass finds exactly the named ports directly inside the service. |
| WsdlAddressMeaning.SecondPassWrites | src/wsdl/resolver.rs:281-383 | On any document, self-closing and nested ports included, the second pass writes the tree in which addresses are relocated wherever the loop takes itself to be below a port. |
| WsdlAddressMeaning.ServiceRewriteIsTreeExactlyWhen | src/wsdl/resolver.rs:193-383 | For all URLs, the two passes relocate just the addresses below the service's ports if and only if no located address lies in the stretch a self-closing target port opens (to the end of the next sibling element or of the parent), and none below a target port past another one inside it. |
| WsdlAddressMeaning.SelfClosingPortLeaks | src/wsdl/resolver.rs:331-345 | So a located address right after a self-closing port of the service is always rewritten too. |
| WsdlAddressMeaning.RewritesOnlyItsServiceExactlyWhen | src/wsdl/resolver.rs:185-383 | For all URLs, the rewrite is the tree map of that service's own ports if and only if the second pass is below a port at just those located addresses that are in them. |
| WsdlAddressMeaning.OwnNamesRewriteOwnAddresses | src/wsdl/resolver.rs:185-383 | With unique port names (WSDL 1.1, section 2.6) and no self-closing port in the service, it is. |
| WsdlAddressMeaning.ServiceRewriteIsIdempotent | src/wsdl/resolver.rs:193-383 | Rewriting again changes nothing, on any event stream and for any service name. |
| WsdlAddressMeaning.EachServiceIsTree | src/wsdl/resolver.rs:193-383 | Rewriting for several services one after another relocates the ports of all of them, in any order. |
| WsdlAddressMeaning.EachServiceIsAllExactlyWhen | src/wsdl/resolver.rs:193-455 | Doing so equals rewriting everything, for all URLs, if and only if every located address lies below a port of one of the services. |
| Dispatch.CollectOpsForService | src/dispatch.rs:118-191 | The nested loops compute the deduplicated operations, for any iteration order. |
| Dispatch.DedupeKeepsFirsts | src/dispatch.rs:181-190 | Deduplication keeps, of each name, exactly the first operation, in order. |
| Dispatch.CollectedExactlyWhenOffered | src/dispatch.rs:118-191 | Whatever the iteration order, an operation is collected if and only if it is offered: through a port of the service, or through any binding when no service is named and none offers anything. |
| Dispatch.CollectedAreOffered | src/dispatch.rs:118-191 | Every operation collected is, field by field, one that a binding of the service offers: its name and SOAP action, the binding's style, and for RPC the namespace of its body or else the target namespace. |
| Dispatch.KeptExactlyWhenFirst | src/dispatch.rs:181-190 | The operation kept under a name is the first found of that name. |
| Dispatch.CollectedIsOrderIndependentExactlyWhen | src/dispatch.rs:118-191 | When no service is named, which operation is kept under a name, style and SOAP action included, is the same for every iteration order if and only if the services that offer it (or else the bindings) offer the same. |
| Dispatch.ResolveInputElement | src/dispatch.rs:312-329 | The first operation of that name decides, in the order the port types are visited. |
| Dispatch.InputElementIs | src/dispatch.rs:312-329 | The input element is the element of the first part of the message that the first operation of that name takes; none without an input, a message, a part or an element. |
| Dispatch.InputIsOrderIndependentExactlyWhen | src/dispatch.rs:312-329 | The input element is the same for every iteration order if and only if all port types declaring the operation agree on it. |
| Dispatch.EntryForOp | src/dispatch.rs:207-279 | An operation gets an entry if and only if it or the default has a handler and a declared input type is registered; its handler is the one registered under its name, the default only if there is none; an RPC operation's input is its own name in its body namespace or else the target namespace; auth flag and validation type are its own. |
| Dispatch.BuildDispatchTableFromOps | src/dispatch.rs:194-307 | A table is built if and only if every operation has a handler or the default, every mapped document input type is registered, and no handler is left over; each element and action then leads to the last operation that has it, served by its own handler, or the default if it has none; an error is about the first operation at fault, or else a left-over handler. |
| Dispatch.RoutedExactlyWhen | src/dispatch.rs:336-356 | A request is routed if and only if some operation has its body element or its non-empty SOAP action: to the last operation with the element, or, only if none has it, to the last with the action. |
| Dispatch.OfferedOperationIsRouted | src/dispatch.rs:118-356 | An offered operation whose input element no other shares gets every request with that element: the handler registered under its name, or the default if none is, and its own auth flag. |
| RequestHandling.FragmentKeepsChildNames | src/envelope.rs:362-535 | Cutting the body out of its document loses none of its children. |
| RequestHandling.RequestIsRouted | src/server.rs:626-650 | From the whole document: a request whose body is an offered operation's input element, without double quotes in the values of its root and its prefix not declared differently around it, reaches the handler registered under that operation's name, or the default if none is, with its auth flag and its entry. |
| RequestHandling.RequestIsValidatedByItsType | src/server.rs:691-698 | From the whole document, the schemas as they declare and the server's own registry: when the first inline schema to declare the operation's input element with a type gives it this one, a request at the operation's entry without double quotes in its values passes validation if and only if it has what every level of the type known to the schema that declares it demands, references standing for the declarations they name. |
| RequestHandling.ValidatedByDeclaration | src/wsdl/resolver.rs:132-147 | The entry's validation type is the one that declaration names. |
| RequestHandling.DeclaredTypeIsResolved | src/wsdl/resolver.rs:120-166 | Whatever complex type the accumulated registry holds, that result applies to it, with the first schema that knows it: no schema before has it in its registry. |
| RequestHandling.RequestsHaveTypeExactlyWhen | src/wsdl/resolver.rs:132-147 | A document-style operation has a type to validate against if and only if an inline schema itself declares its input element with one; otherwise every request passes. |
| RequestHandling.RpcRequestsAreValidatedExactlyWhen | src/dispatch.rs:221-240 | At an RPC operation's entry every request passes if and only if the registry holds no type named like the operation, or that type requires nothing; otherwise the body is validated against it. |

## Left out

- HTTP, handlers, fault texts, content types and path mounting: not modelled; a handler is any value.
- Tokenising XML: an attribute value is the text between its quotes, without the quotes. What is written by hand is read back tag by tag; character data is taken to read back as it is, and a text that is not exactly one tag as unreadable. The tokenizer's own errors are not modelled.
- ExtractBodyQName: takes a first tag whose attributes cannot be read for an error, where the code resolves the name with the declarations it has come to.
- RewriteWsdlAddress: does not model the writer's escaping, because the new URL is taken as written between the quotes; other values are written as they are, as AddressReadsBackExactlyWhen says.
- SHA-1 and RFC 3339: the hash of the decoded nonce, Created and the password, the user store and the meaning of Created are parameters; constant-time comparison is equality.
- ProofReplay: is about digests only, because a plain-text password can be sent with any nonce.
- The loop of parse_username_token and find_security_header: a token is taken as parsed.
- NonceCache.RotatingNonceCache.RotateIfNeeded: does not model a half-window of zero, for which the loop does not terminate.
- ValidateUsernameToken: uses one reading of one clock for freshness and for the cache, where the code reads two clocks.
- format_wsu_created: only pads the fields of the date proved correct here.
- ResolveSchema: does not model parsing; a location that does not load and one that does not parse are the same error.
- ResolveAllTypes: asks for a rank on groups and attribute groups, because the code has no guard against groups that contain themselves and does not terminate on them.
- Validation.AcceptedExactlyWhen: looks at types whose extension is at the top of the content model, because the parser produces no others.
- Facets, fixed and default values, nillable: validation does not consult them. Nested compositors and group references in a content model are lost in the parser, which is not modelled.
- CanonicalizePrefixes: which of several errors is reported is not stated.
- CanonicalFormIsComplete: asks that no element be in the namespace of the `xml` prefix, because the code gives such an element no prefix.
- The first layer of normalize.rs (normalize, mask_only, mask_only_with_drops): compositions and variants of the loops modelled here.
- ServiceRewriteIsTreeExactlyWhen: asks that services not lie inside one another, because WSDL has no such documents and the first pass then counts depths of two services at once.
- WsdlResolver.ResolveWsdl: walks the imports before it resolves the inline schemas, where the code alternates; the order of the schemas and the result are the same, and only which of several errors comes first may differ.
- LossesUncheckedExactlyWhen: asks that the schema and what it reaches declare no name in two ways, because which declaration counts then depends on the order of loading.
- Route: SOAP action and body element are parameters; the default handler is only used when the table is built, as in the code.
- RequestIsRouted: leaves the credential check to UsernameToken.
