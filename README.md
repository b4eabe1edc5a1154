# parse_cidrs — a verified model of the EC2 Instance Connect CIDR listing

`parse_cidrs.py` reads an address-range document, walks its `prefixes` list,
keeps the records whose `service` is exactly `"EC2_INSTANCE_CONNECT"` and, for
each kept record, appends the text block `"\n" + region + ":\n\tCIDR: " + ip_prefix`
to a string buffer that starts empty. The buffer is then printed.

This project (`parse_cidrs.dfy`, module `ParseCidrs`) models that loop:

- `Prefix` is a record with three string fields: `service`, `region` and `ipPrefix`.
- `Render(ps)` is the specification of the buffer after the loop has seen the
  records `ps`. It is `Accumulate(Contribution, ps, |ps|)`: starting from the
  empty string, one record's contribution is appended at a time, as the loop does.
- `BuildListing` is the loop itself. It is a method with a `while` loop whose
  invariant is `yaml == Render(prefixes[..i])`.
- `Matching` (an order-preserving filter) followed by `Blocks` (concatenation of
  the blocks) is an independent reference definition. `RenderIsBlocksOfMatching`
  proves it equal to `Render`.
- `ParseBlock` reads a region and an address block back out of one block. It is
  the partner used to show that both strings are copied verbatim.

## Model

| member | source | states |
|---|---|---|
| ParseCidrs.IsInstanceConnect | parse_cidrs.py:10 | the filter predicate, exact equality of `service` with `EC2_INSTANCE_CONNECT`; no contract of its own: its properties are stated by `Matching`, `RenderEmptyIffNoMatch`, `LowercaseServiceExcluded` and `NonMatchingIsInvisible` |
| ParseCidrs.Contribution | parse_cidrs.py:10-12 | one iteration's `+=`: the record's block if it matches, nothing otherwise; no contract of its own: its properties are stated by `RenderSingle`, `RenderSnoc`, `RenderCons` and `RenderStep` |
| ParseCidrs.Render | parse_cidrs.py:8-12 | the buffer after the loop; no contract of its own: its properties are stated by `BuildListing`, `RenderIsBlocksOfMatching`, `RenderCons`, `RenderEmptyIffNoMatch` and `RenderLength` |
| ParseCidrs.BuildListing | parse_cidrs.py:8-12 | the loop, starting from the empty string and doing one `+=` per matching record, ends with exactly `Render(prefixes)` |
| ParseCidrs.Block | parse_cidrs.py:11-12 | a record's block is len(region) + len(ip_prefix) + 10 characters long and starts with a newline |
| ParseCidrs.Matching | parse_cidrs.py:9-10 | the filter keeps exactly the records whose service is `EC2_INSTANCE_CONNECT`, and never more records than it was given |
| ParseCidrs.RenderIsBlocksOfMatching | parse_cidrs.py:8-12 | the output is the concatenation of the blocks of the filtered records, in input order |
| ParseCidrs.AccumulateAppend | parse_cidrs.py:8-12 | for any per-record text, the `+=` accumulation over `xs + ys` is the accumulation over `xs` followed by the one over `ys` |
| ParseCidrs.RenderAppend | parse_cidrs.py:8-12 | rendering distributes over concatenation: `Render(xs + ys) == Render(xs) + Render(ys)` |
| ParseCidrs.RenderSnoc | parse_cidrs.py:9-12 | appending a record to the input appends exactly that record's contribution to the output |
| ParseCidrs.RenderCons | parse_cidrs.py:9-12 | the first record's contribution comes first in the output, followed by the rest's |
| ParseCidrs.RenderSingle | parse_cidrs.py:10-12 | one record yields its block if its service matches, and the empty string otherwise |
| ParseCidrs.RenderEmptyIffNoMatch | parse_cidrs.py:8-12 | the output is empty if and only if no record has service `EC2_INSTANCE_CONNECT` |
| ParseCidrs.RenderOfNoRecords | parse_cidrs.py:8-9 | an empty `prefixes` list gives the empty string |
| ParseCidrs.RenderStartsWithNewline | parse_cidrs.py:11-12 | a non-empty output begins with `'\n'` |
| ParseCidrs.RenderLength | parse_cidrs.py:11-12 | the output length is the sum of len(region) + len(ip_prefix) + 10 over the matching records |
| ParseCidrs.RenderStep | parse_cidrs.py:9-12 | one more record only appends its contribution; a non-matching record leaves the buffer unchanged |
| ParseCidrs.RenderPrefixGrows | parse_cidrs.py:9-12 | the buffer after `i` records is a prefix of the buffer after `j >= i` records |
| ParseCidrs.NonMatchingIsInvisible | parse_cidrs.py:10 | a record of any other service can be removed from anywhere in the list without changing the output |
| ParseCidrs.LowercaseServiceExcluded | parse_cidrs.py:10 | the comparison is case-sensitive: service `ec2_instance_connect` contributes nothing |
| ParseCidrs.MatchingKeepsDuplicates | parse_cidrs.py:9-10 | no deduplication: a matching record occurs in the filtered list as often as in the input |
| ParseCidrs.DuplicateRecordListedTwice | parse_cidrs.py:9-12 | two identical matching records produce their block twice |
| ParseCidrs.ExampleDocument | parse_cidrs.py:8-12 | one `EC2_INSTANCE_CONNECT` record in `us-east-1` and one `AMAZON` record give exactly `"\nus-east-1:\n\tCIDR: 10.0.0.0/16"` |
| ParseCidrs.ParseBlock | parse_cidrs.py:11-12 | whatever it reads back is a region without a newline and an address block that, formatted as a block, give the input text |
| ParseCidrs.BlockRoundTrip | parse_cidrs.py:11-12 | region and address block are copied verbatim: any strings are accepted and read back unchanged, provided the region holds no newline |
| ParseCidrs.BlockAmbiguousWithoutEscaping | parse_cidrs.py:11-12 | nothing is escaped: two different records whose region or prefix contain the separator text produce the same block |

## Left out

- Opening `./cidrs.json` and parsing it with `json.load` (parse_cidrs.py:3-4): file I/O and a JSON parser from the standard library. The model takes the decoded `prefixes` list as its input.
- The two `print` calls (parse_cidrs.py:6 and 14): standard-output I/O. Printing `createDate` is a verbatim echo with no logic, so the document's `createDate` field is not modelled.
- Errors and non-string values in a record. The script fails only when a record lacks `service` (a `KeyError` at parse_cidrs.py:10), when a matching record lacks `region` or `ip_prefix` (a `KeyError` at parse_cidrs.py:11-12), or when a record is not a mapping (a `TypeError`). None of these failures is modelled: a `Prefix` always has three string fields. The other cases give the same output as some `Prefix`. A non-string `service` compares unequal to `"EC2_INSTANCE_CONNECT"` without error, as any other service string does. A non-string `region` or `ip_prefix` in a matching record is formatted with `str()` by the f-string (`null` gives `None`, `true` gives `True`), so it is represented by that text. A non-matching record never has `region` or `ip_prefix` read, so missing ones are represented by any string. A Python `str` holding a lone surrogate (which `json.load` produces from an escape such as `"\ud800"`) cannot be a Dafny `string`, whose characters are Unicode scalar values, so such records are not represented.
- CIDR structure: `ipPrefix` is an opaque string. The script does no address or mask arithmetic.
