/** The records of the roster application and its empty initial state. */
module Types {

  /** An optional value: a field of a partial record, or a parse that may fail. */
  datatype Option<+T> = None | Some(value: T) {
    /** The value, or `default` when there is none (a fallback for a missing field). */
    function GetOr(default: T): T {
      if Some? then value else default
    }
  }

  datatype AdminStatus = Active | Inactive

  /** A trainee/staff record. `whatsapp` is the one optional field. */
  datatype Admin = Admin(
    id: string,
    name: string,
    age: string,
    gender: string,
    address: string,
    mobile: string,
    whatsapp: Option<string>,
    batch: string,
    joinDate: string,
    currentTrainer: string,
    latestTrainer: string,
    facebookLink: string,
    documents: seq<string>,
    rating: int,
    status: AdminStatus)

  datatype BatchStatus = ComingSoon | Ongoing | Ended

  /** A cohort of a course; `adminIds` refer to admins by id. */
  datatype Batch = Batch(
    id: string,
    batchNumber: string,
    startDate: string,
    admissionDate: string,
    headTeacher: string,
    status: BatchStatus,
    adminIds: seq<string>,
    createdAt: string)

  datatype Course = Course(id: string, courseName: string, batches: seq<Batch>)

  /** A recurring weekly class: a "HH:MM AM|PM" time and a list of weekday names. */
  datatype Sedulous = Sedulous(
    id: string,
    courseName: string,
    classType: string,
    batchNumber: string,
    classTime: string,
    days: seq<string>)

  /** The single document holding the whole application state. */
  datatype AppData = AppData(admins: seq<Admin>, courses: seq<Course>, sedulous: seq<Sedulous>)

  /** The state used when nothing (readable) is saved: three empty lists. */
  const INITIAL_DATA: AppData := AppData([], [], [])
}
