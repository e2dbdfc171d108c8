# IBM Cloud Databases version lookup, modelled in Dafny

The Redis modules of this repository ask IBM Cloud Databases (ICD) which Redis
versions a region offers. `scripts/get_icd_versions.py` does this. Terraform
runs it as an external data source. The script:

1. checks that the query carries a non-empty `IAM_TOKEN`, `REGION` and
   `DB_TYPE`, in that order;
2. chooses the API endpoint: the `IBMCLOUD_ICD_API_ENDPOINT` override, or
   `https://api.<region>.databases.cloud.ibm.com`;
3. builds the `Authorization` header, removing one `Bearer ` prefix the token
   may already carry;
4. calls `GET /v5/ibm/deployables`. From the first deployable whose `type` is
   `DB_TYPE`, it keeps the `version` of every entry whose `status` is neither
   `dead` nor `hidden`;
5. returns `{"versions": json.dumps(list)}`, the flat map of strings Terraform
   expects.

The model has three modules:

- `Wrappers` (`wrappers.dfy`): `Option` and `Result`.
- `JsonText` (`json_text.dfy`): the JSON text `json.dumps` writes for a list
  of strings and `None`s with its default options (`ensure_ascii`, the `", "`
  separator, lower-case `\uXXXX`, surrogate pairs above U+FFFF). It also holds
  a decoder for the array and string grammar of RFC 8259, sections 2, 5 and 7.
  The lemmas prove that decoding the encoder's output gives back the list,
  that the encoding is injective, and that it is printable ASCII.
- `IcdVersions` (`icd_versions.dfy`): the script itself. Validation, the
  endpoint, the header and the Terraform map are functions. `transform_data`
  is a method with the source's nested loops and early `break`, proved against
  the specification function `LiveVersionsOf`. Lemmas then say what
  `LiveVersionsOf` keeps and which deployable it reads. `Lookup` chains the
  steps as `main` does.

Modelling choices:

- The query is a `map<string, string>`, because Terraform's external data
  source passes only string values. A key is "present" when Python's
  `data.get(key)` is truthy: the key is there and its value is not empty.
- In the catalogue, `Option` stands for a JSON key that may be missing.
  An entry without a `version` key contributes `None`, just as
  `ver.get("version")` appends `None`, which `json.dumps` writes as `null`.
- The environment variable is the parameter `endpointOverride`. The HTTPS
  call is the parameter `api`, which returns the decoded catalogue or an error.

The rest of the repository is Terraform configuration and Go test glue, which
is usually described as holding no executable logic. This script is the
exception, and the model follows its code.

## Model

| member | source | states |
|---|---|---|
| `IcdVersions.ValidateInputs` | scripts/get_icd_versions.py:22-42 | The query is accepted exactly when all three keys are present and non-empty. It then returns (token, region, db_type) in that order. Otherwise the error names the first missing key in the order IAM_TOKEN, REGION, DB_TYPE: "<KEY> is required". |
| `IcdVersions.ApiEndpoint` | scripts/get_icd_versions.py:45-56 | A set, non-empty override is returned unchanged. Otherwise the result is the default endpoint, and its region reads back as the given region. The endpoint is never empty. |
| `IcdVersions.DefaultEndpointRegion` | scripts/get_icd_versions.py:55 | The region can be read back from `https://api.<region>.databases.cloud.ibm.com`. |
| `IcdVersions.DefaultEndpointInjective` | scripts/get_icd_versions.py:55 | Two different regions never get the same default endpoint. |
| `IcdVersions.StripBearer` | scripts/get_icd_versions.py:71-73 | A token starting with "Bearer " loses exactly that one prefix; any other token is unchanged. |
| `IcdVersions.AuthorizationHeader` | scripts/get_icd_versions.py:71-76 | The header always starts with "Bearer ". A token that already has the prefix is used as it is, so the prefix is not doubled; any other token gets the prefix added. |
| `IcdVersions.AuthorizationHeaderIdempotent` | scripts/get_icd_versions.py:71-76 | Building the header again from a header gives the same header. |
| `IcdVersions.BuildRequest` | scripts/get_icd_versions.py:71-83 | The request goes to the endpoint on path /v5/ibm/deployables. It has exactly two headers: Authorization ("Bearer " + the stripped token) and Accept: application/json. |
| `IcdVersions.FirstMatch` | scripts/get_icd_versions.py:113-114 | Finds the first deployable whose type equals db_type, and none before it matches. If the result is None, no deployable matches. |
| `IcdVersions.TransformData` | scripts/get_icd_versions.py:100-127 | The nested loops with the early break return exactly the live versions of the first deployable of the type, or an empty list when there is none. |
| `IcdVersions.LiveSingleton` | scripts/get_icd_versions.py:116-117 | One entry is kept exactly when its status is neither "dead" nor "hidden"; an entry with no status is kept. |
| `IcdVersions.LiveConcat` | scripts/get_icd_versions.py:115-117 | Filtering a concatenation gives the concatenation of the filtered parts, so entries keep their order. |
| `IcdVersions.LiveNoLonger` | scripts/get_icd_versions.py:115-117 | The result is never longer than the deployable's version list. |
| `IcdVersions.LiveIsSubsequence` | scripts/get_icd_versions.py:115-117 | The result is the versions taken at exactly the live positions, in increasing position order. Every kept value comes from a live entry, and no live entry is left out. |
| `IcdVersions.LiveEmpty` | scripts/get_icd_versions.py:115-117 | Nothing is kept exactly when every entry is dead or hidden. |
| `IcdVersions.FirstMatchAppend` | scripts/get_icd_versions.py:113-119 | Deployables appended after a match do not change which deployable is found. |
| `IcdVersions.LaterDuplicatesIgnored` | scripts/get_icd_versions.py:113-119 | When a deployable of the type exists, adding more deployables after it, including some of the same type, does not change the result. |
| `IcdVersions.LiveVersionsOfEmpty` | scripts/get_icd_versions.py:111-127 | The result is empty exactly when one of these holds: there is no "deployables" key; no deployable has the type; or the first deployable of the type has no "versions" key or no live entry. None of these cases is an error. |
| `IcdVersions.FormatForTerraform` | scripts/get_icd_versions.py:130-140 | The map has the single key "versions". Its value decodes back to the list and is printable ASCII. |
| `IcdVersions.Lookup` | scripts/get_icd_versions.py:147-153 | An invalid query fails with the validation message before any request is made. A failed API call fails with its error. Otherwise the result is the Terraform map, and it decodes to the live versions of the catalogue the API returned. |
| `JsonText.RoundTrip` | scripts/get_icd_versions.py:140 | Decoding the text written by `json.dumps` for a list of strings and nulls gives back that list. |
| `JsonText.EncodeListInjective` | scripts/get_icd_versions.py:140 | Two different lists never get the same text. |
| `JsonText.EncodeListAscii` | scripts/get_icd_versions.py:140 | With `ensure_ascii`, every character of the text is printable ASCII. |

## Left out

- The HTTPS request, its status-code check and the decoding of the response body (scripts/get_icd_versions.py:80-97) are network I/O. They become the `api` parameter of `Lookup`, which returns a catalogue or an error message.
- `urlparse(api_endpoint).hostname` (scripts/get_icd_versions.py:68-69) is not modelled. The request carries the whole endpoint string.
- Reading the query from stdin and printing the result (scripts/get_icd_versions.py:9-19, 155) are I/O. The model starts from a decoded query and ends with the map.
- The `os.getenv` read (scripts/get_icd_versions.py:53) is the `endpointOverride` parameter.
- Catalogue values of an unexpected JSON kind are not modelled: a `"deployables"` or `"versions"` that is present but `null`, or a non-string `type` or `status`. Python raises a `TypeError` for the null cases or compares by value for the others. The model's catalogue holds only strings, lists and missing keys.
- `JsonText.Decode` refuses a lone surrogate escape, because a Dafny `char` is a Unicode scalar value. `json.dumps` never writes one for such strings.
- tests/pr_test.go and tests/other_test.go are not part of this model. They drive an external test harness against live cloud accounts, in parallel, using credentials and YAML fixtures.
