/**
 The job record as the search core reads it. The loader that produces jobs
 (`fetchJobs`) is not part of this model; only the fields the filter and the
 tag extractor use are declared.
 */
module JobService {

  datatype Job = Job(
    id: int,
    company: string,
    position: string,
    location: string,
    languages: seq<string>,
    tools: seq<string>)
  {
    /** The tags of one job: its languages, then its tools. */
    function Tags(): seq<string> {
      languages + tools
    }

    /** `t` is one of this job's languages or tools. */
    predicate HasTag(t: string) {
      t in languages || t in tools
    }
  }
}
