# route53 SRV registry adapter: a Dafny model

This project models the route53 adapter of a service-registry bridge. The
adapter publishes each locally discovered service as a DNS SRV record set in
a hosted zone, which is named by the URI's host. On **Register** it lists the
zone and takes the first record set whose name is `<service>.<domain>.`. It
then submits one change. If the service's value `1 1 <port> <ip>.` is already
there, it submits nothing. Otherwise it submits an UPSERT of the set's values
followed by the new one. On **Deregister** it submits one of three changes:

- a DELETE when the value is the set's only record;
- an UPSERT of the set with the first copy of the value taken out;
- nothing, when there is nothing to remove.

**Factory.New** takes the domain from the URI path.

The two remote calls of each operation are inputs and outputs of pure
functions:

- the list call's answer is a `ListResponse`, either a failure or a sequence
  of `RecordSet(name, rtype, values)`;
- the change the adapter submits is a `Change`: `NoChange`, `Upsert` or
  `Delete`;
- the error that the change call returns, when it is made, is the `reply`
  parameter.

Modules:

- `Wrappers`: `Option` and `Result`.
- `Seqs`: first-position search, removal of one position, and Go's
  `strings.Split` with its inverse `Join`.
- `Srv`: the SRV record value in the field order of section "The format of
  the SRV RR" of RFC 2782. It covers Go's `%d` formatting and a parser that
  inverts the value, so two endpoints never share a value.
- `Route53`: the data model, the Register/Deregister decisions, the end-to-end
  exchanges with their error handling, and the factory.
- `Route53Scan`: the Go loops, with their early returns and `break`, proved
  equal to the declarative decisions.
- `HostedZone`: the assumed effect of an UPSERT or DELETE on the zone. It
  lets Register and Deregister be related across calls.
- `Route53Properties`: idempotence, register-then-deregister, first-match-only,
  and the two findings below.

The adapter picks a set by name alone; it never compares the record type.
`Route53.RegisterChange` and `Route53.DeregisterChange` model that as written,
and `Route53.Register`/`Route53.Deregister` are built on them. The cross-call
properties are proved for the corrected selection, which takes only SRV sets of
the name (`RegisterChangeSrv`, `DeregisterChangeSrv`).
`Route53Properties.AsWrittenAgrees` says the two selections decide alike on
every zone where no other record type shares the service's name. Each
cross-call property is carried back to the adapter as written through it:
`RegisterIdempotent`, `RegisterThenDeregisterAsWritten` and
`DeregisterIdempotent`.

The factory's length guard counts bytes, as Go's `len` does on a string.
The model counts the UTF-8 encoding of the path (`Route53.Utf8Length`), so a
path of one non-ASCII character passes the guard.

The SRV target the adapter writes is the service's IP address followed by a
dot. RFC 2782 expects a domain name with address records there. The model
follows the code.

## Model

| member | source | states |
|---|---|---|
| Route53.WriteName | route53/route53.go:88 | The name written in changes is the service's label, one dot, then the domain, with nothing else around them. |
| Route53.LookupName | route53/route53.go:46 | The name compared against listed sets is the name written in changes plus a trailing dot. |
| Route53.RegisterDecision | route53/route53.go:58-80 | The decision is never a DELETE. If the first selected set already holds the value, there is no change, and only then. Otherwise the UPSERT carries that set's values in their original order plus the value once at the end. With no selected set, it carries just the value. |
| Route53.DeregisterDecision | route53/route53.go:118-185 | There is no change when no set is selected or the value is absent from the first selected set, and only then. If that set holds exactly the value, the result is a DELETE of the value with the service's TTL. Otherwise it is an UPSERT of the set without the first occurrence of the value. |
| Route53.RegisterChange | route53/route53.go:58-80 | Register's change as written, selecting by name alone. It is never a DELETE. An UPSERT uses the written name and the service's TTL. With no set of the lookup name, it UPSERTs just the service's value. When the first set of that name is found, there is no change exactly when that set holds the value; otherwise the set's values plus the value are upserted. |
| Route53.DeregisterChange | route53/route53.go:118-185 | Deregister's change as written. With no set of the lookup name, there is no change. When the first such set is found, there is no change exactly when the value is absent. If the set holds only the value, the change is a DELETE of that value under the written name and the service's TTL. If the set holds more, the UPSERT carries the set without the value's first occurrence. |
| Route53.Outcome | route53/route53.go:54-102 | The error handed back: a failed listing gives no error. An error is returned exactly when a change was submitted and the change call failed, and it is that call's error. |
| Route53.Register | route53/route53.go:45-103 | A failed listing yields no change and no error. On a listing, the change is Register's decision. An error comes back exactly when a change was submitted and the change call failed, and it is that call's error. |
| Route53.Deregister | route53/route53.go:105-186 | The same error handling for Deregister: a failed listing is swallowed, and a failed change call's error is returned. |
| Route53.Utf8Length | route53/route53.go:24 | The byte length of a string that Go's `len` returns: between one and four times the character count. It equals the character count exactly when every character is ASCII, so any non-ASCII character makes the path longer in bytes than in characters. |
| Route53.NewAdapter | route53/route53.go:21-33 | A path shorter than 2 UTF-8 bytes is refused. A path without '/' has no second piece. Otherwise the zone is the host and the domain is the piece after the first '/' up to the next '/'. |
| Route53.NewAdapterStrict | route53/route53.go:24-31 | The corrected factory accepts only what the factory accepts with a non-empty domain, and returns the same adapter. |
| Route53Scan.RegisterLoop | route53/route53.go:60-80 | The loop over sets with its early return and `break` submits exactly Register's decision under the name-only selection. |
| Route53Scan.DeregisterLoop | route53/route53.go:120-185 | The loop with the single-record DELETE branch and the slice-splice UPSERT submits exactly Deregister's decision. |
| Seqs.FirstIndex | route53/route53.go:61-62 | The position found is the first that matches: no earlier one matches. None means no position matches. |
| Seqs.IndexOf | route53/route53.go:125-126 | A position is found exactly when the value is present, and it is its first occurrence. |
| Seqs.RemoveAt | route53/route53.go:156 | Removing one position keeps the other elements in order, shortens by one, and drops exactly one copy of the removed element. |
| Seqs.Split | route53/route53.go:31 | Split gives one more piece than there are separators. No piece holds a separator. The first piece is the prefix before the first separator. Joining the pieces gives the input back. |
| Seqs.SplitJoin | route53/route53.go:31 | Splitting what Join produced gives back the pieces, when none contains the separator. |
| Srv.ParseFormatInt | route53/route53.go:58 | Go's `%d` text of any integer, negative ones included, parses back to that integer. |
| Srv.FormatInt | route53/route53.go:58 | Go's `%d` text of an integer is non-empty, has no space, and starts with a minus sign exactly when the integer is negative. |
| Srv.ParseFormatSrv | route53/route53.go:58 | A record written as priority, weight, port and target with a trailing dot parses back to the same four fields. |
| Srv.SrvValue | route53/route53.go:58 | The value the adapter writes starts with "1 1 " and ends with the target's dot. |
| Srv.ParseSrvValue | route53/route53.go:58 | The value the adapter writes reads back as priority 1, weight 1, the service's port, and its IP as target. |
| Srv.SrvValueInjective | route53/route53.go:118-139 | Two endpoints have the same value exactly when port and IP are equal. So deregistering one endpoint never matches another endpoint's value. |
| HostedZone.Apply | route53/route53.go:81-96 | The assumed zone semantics. UPSERT leaves an SRV set of the name holding exactly the submitted values. DELETE leaves none in a well-formed zone. Every other set is kept, and a well-formed zone stays well-formed. |
| Route53Properties.LaterSetsIgnored | route53/route53.go:61-74 | Appending anything after the first selected set changes neither decision, because of the `break`. |
| Route53Properties.SelectionsAgree | route53/route53.go:62 | The name-only and SRV-only searches find the same set when every set of the name is SRV. |
| Route53Properties.AsWrittenAgrees | route53/route53.go:61-122 | Register's name compare at line 62 and Deregister's at line 122 decide the same as the SRV-only selection on such zones, for both decisions. |
| Route53Properties.RegisterSrvIdempotent | route53/route53.go:58-80 | Registering again on the zone the first registration left submits nothing. |
| Route53Properties.RegisterIdempotent | route53/route53.go:58-80 | The same for the adapter as written, on zones where only SRV sets carry the service's name. |
| Route53Properties.RegisterThenDeregister | route53/route53.go:120-167 | Under the SRV-only selection: after a registration that added the value, Deregister restores the set's previous values, or DELETEs the set when the registration created it. |
| Route53Properties.ApplyKeepsOnlySrvNamed | route53/route53.go:86-89 | The adapter's own changes are written as SRV sets of the service's name, so a zone where only SRV sets carry that name keeps that property. |
| Route53Properties.RegisterThenDeregisterAsWritten | route53/route53.go:58-185 | The adapter as written: after a registration that added the value, Deregister restores the set's previous values, or DELETEs the set when the registration created it. This holds on zones where only SRV sets carry the service's name. |
| Route53Properties.DeregisterSrvIdempotent | route53/route53.go:120-178 | Under the SRV-only selection: deregistering again on the zone the first deregistration left submits nothing, when the value was in the set at most once. |
| Route53Properties.DeregisterIdempotent | route53/route53.go:120-178 | The adapter as written: deregistering again on the zone the first deregistration left submits nothing. This holds when only SRV sets carry the service's name and the value was in the set at most once. |
| Route53Properties.DeregisterRemovesOne | route53/route53.go:156 | Deregister's UPSERT lowers the value's count by exactly one and leaves every other value's count unchanged. |
| Route53Properties.TxtSetMergedIntoSrv | route53/route53.go:61-62 | For any service and any TXT text without its value: as written, a TXT set of the service's name is merged into the SRV UPSERT. The SRV-only selection upserts just the value. |
| Route53Properties.WebValue | route53/route53.go:58 | The service "web" on 10.0.0.1:80 registers the value "1 1 80 10.0.0.1.". |
| Route53Properties.OneRunePathHasNoSecondSegment | route53/route53.go:24-31 | The path "é" (U+00E9) is one character but two bytes in UTF-8. It passes the length guard and has no '/', so the factory fails on the missing second piece. |
| Route53Properties.EmptyDomainAccepted | route53/route53.go:24-31 | The path "//" passes the length guard and yields an empty domain; the strict factory refuses it. |

## Left out

- `Ping`, `Refresh` and `Services` are not modelled: they return nil or an empty list and do nothing else.
- The remote SDK calls are not made. The list call's answer is an input, the submitted change is an output, and the change call's error is an input.
- The list request's paging parameters (`MaxItems` "1000", start name and start type) are not modelled. The listing is taken as given, in the order the provider returns it.
- Logging is left out. The fatal log on a short path becomes `Failure(DomainRequired)`, and the index panic on a path without '/' becomes `Failure(NoSecondSegment)`.
- Plugin registration in `init` and URL parsing are left out. The factory takes the host and path as strings. Go's URL parser percent-decodes the path without checking UTF-8, so a path such as "/%FF" holds a byte that is not valid UTF-8. A Dafny string holds characters, so such paths are outside the model.
- The TTL is an unbounded integer. `int64(service.TTL)` does not change a value of Go's 64-bit `int`.
- The slice splice at route53/route53.go:156 writes into the listed response's backing array. Nothing reads the response afterwards, so the model builds a fresh sequence.
- HostedZone.Apply does not model the provider's own validation: a DELETE whose values or TTL differ from the stored set, or malformed SRV text. It also does not keep TTLs. It stands for the provider's behaviour, which is not part of the adapter.
- HostedZone.Apply: assumes the zone lists a set under exactly the name the adapter wrote, plus a trailing dot. Route 53 lists names in a canonical form: letters in lower case, and characters other than a-z, 0-9, '-' and '_' as `\ooo` octal escape codes. The adapter compares names byte for byte (route53/route53.go:62 and :122). So a service named "Web" is written as "Web.example.com", listed back as "web.example.com.", and never found again. A second Register then UPSERTs only its own value, and Deregister changes nothing. The cross-call lemmas (`RegisterSrvIdempotent`, `RegisterIdempotent`, `RegisterThenDeregister`, `RegisterThenDeregisterAsWritten`, `DeregisterSrvIdempotent`, `DeregisterIdempotent`) therefore describe the real zone only when the lookup name is already in canonical form.
- The list call and the change call are not one atomic step. Two adapters registering the same name can both list `[a]` and submit `[a, x]` and `[a, y]`, and the later UPSERT drops the other's value. The cross-call lemmas (`RegisterIdempotent`, `RegisterSrvIdempotent`, `RegisterThenDeregister`, `RegisterThenDeregisterAsWritten`, `DeregisterSrvIdempotent`, `DeregisterIdempotent`) assume that no other writer changes the zone between the two calls.
- Route53Properties.RegisterIdempotent: stated only for zones where no other record type carries the service's name, because of the first finding below.
- Route53Properties.DeregisterSrvIdempotent: stated only when the value is in the set at most once. With two copies, a second Deregister removes the second copy, as the source does.
- Route53Properties.RegisterThenDeregisterAsWritten: stated only for zones where no other record type carries the service's name, because of the first finding below.
- Route53Properties.DeregisterIdempotent: stated only for zones where no other record type carries the service's name, and only when the value is in the set at most once, for the reasons of the two lines above.

## Findings

| source | as written | input that shows it | evidently intended | confidence | as-written member | corrected member |
|---|---|---|---|---|---|---|
| route53/route53.go:62 | The set is chosen by name alone; its record type is never compared. | Registering service "web" on 10.0.0.1:80 in domain "example.com" against a listing with only a TXT set "web.example.com." holding "\"v=1\"". The UPSERT written as SRV carries ["\"v=1\"", "1 1 80 10.0.0.1."]. | Only the SRV set of the name is merged, so the UPSERT carries just "1 1 80 10.0.0.1.". | medium, not executed | Route53Properties.TxtSetMergedIntoSrv | Route53.RegisterChangeSrv |
| route53/route53.go:24-31 | The guard checks only the path length, so a path of two slashes passes with an empty domain. | URI path "//": the domain is "", and names are written as "web.". | A non-empty domain is required, as the fatal message says. | medium, not executed | Route53Properties.EmptyDomainAccepted | Route53.NewAdapterStrict |

Some listings do reach the first finding. The listing starts at the service's
name and the SRV type. When the zone has no SRV set of that name yet, a TXT
set of the same name is the next one listed. DNS-SD names carry both an SRV
and a TXT set. The corrected selection has these properties proved:
Route53Properties.RegisterSrvIdempotent, RegisterThenDeregister and
DeregisterSrvIdempotent. `TxtSetMergedIntoSrv` is stated for every service
and TXT text, and `WebValue` spells out the value of the example row. For the second finding, `NewAdapterStrict` is proved
to accept only adapters with a non-empty domain.
